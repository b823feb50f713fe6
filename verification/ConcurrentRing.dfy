/**
 One writer and one reader on a shared ring, interleaved at every load and store: single bytes of headers and payloads,
 single loads of the offsets, one compare-and-exchange, one store of each offset. A commit may first shorten its
 frame: the padding header is stored byte by byte like any other payload, the aligned 16-bit size field in one store.
 Memory is sequentially consistent.
 */
module ConcurrentRing {
  import opened MachineWords
  import opened Wrappers
  import opened FrameHeader
  import opened RingGeometry
  import opened FrameWalk
  import opened RingModel
  import opened RingLaws
  import opened PaddingLaws

  /** Where the writer is in intnetRingAllocateFrameInternal; between allocations it is idle and may commit. */
  datatype Writer =
    | Idle
    | LoadedInt(kind: u16, cb: u16, w: int)
    | LoadedBoth(kind: u16, cb: u16, w: int, r: int)
    | StoringHeader(slot: Slot, hd: Header, i: nat)
    // inside IntNetRingCommitFrameEx: the frame is shortened and `offNew` is still to be stored
    | Shrunk(offNew: int)

  /** Where the reader is: `got` holds the bytes of header and frame it has loaded so far. */
  datatype Reader =
    | Resting
    | LoadedRead(r: int)
    | Copying(r: int, got: seq<byte>)

  /**
   `pending` are the places handed out and not committed, which third parties fill at any time; `races` counts lost
   compare-and-exchanges; `sent` and `received` record what was committed and what the reader has finished copying. */
  datatype State = State(
    g: Geometry, m: seq<byte>, offRead: int, offWriteCom: int, offWriteInt: int,
    writer: Writer, pending: seq<Slot>, reader: Reader, races: nat, sent: seq<Frame>, received: seq<Frame>)

  datatype Step =
    | LoadWriteInt(kind: u16, cb: u16)
    | LoadReadOffset
    | CompareExchange
    | StoreHeaderByte
    | FillByte(k: nat, off: nat, b: byte)
    | StoreSize(used: u16)
    | StoreCommit
    | ReaderLoadRead
    | ReaderLoadCommit
    | ReaderLoadByte
    | ReaderStoreRead

  /** The newest place handed out has closed the ring: the write offset has come round to the read offset. */
  predicate Full(s: State) {
    !s.writer.StoringHeader? && s.pending != [] && s.offWriteInt == s.offRead
  }

  function Newest(s: State): Slot
    requires s.pending != []
  {
    s.pending[|s.pending| - 1]
  }

  /** The ring as far as its headers are written; in a full ring, up to the newest place. */
  function RingOf(s: State): RingState {
    var w := if s.writer.StoringHeader? then s.writer.slot.hdr else if Full(s) then Newest(s).hdr else s.offWriteInt;
    RingState(s.g, s.m, s.offRead, s.offWriteCom, w, 0, 0, 0)
  }

  function HeaderGot(got: seq<byte>): Header
    requires |got| >= HEADER_SIZE
  {
    Decode(got[..HEADER_SIZE])
  }

  /** The address of the next byte the reader loads. */
  function NextAddress(r: int, got: seq<byte>): int {
    if |got| < HEADER_SIZE then r + |got| else r + HeaderGot(got).off + |got| - HEADER_SIZE
  }

  predicate CopyComplete(got: seq<byte>) {
    |got| >= HEADER_SIZE && |got| == HEADER_SIZE + HeaderGot(got).cb
  }

  /** The `k`-th pending place starts with a well-formed header. */
  predicate StartsAt(s: State, k: nat) {
    k < |s.pending| && MemoryOk(s.m, s.g) && InRing(s.g, s.pending[k].hdr) && FrameStarts(s.m, s.g, s.pending[k].hdr)
  }

  /** The header of a padding frame that fills `p` is in memory. */
  predicate PaddingStored(s: State, p: Slot)
    requires MemoryOk(s.m, s.g)
  {
    && InRing(s.g, p.hdr)
    && var hd := ReadHeader(s.m, p.hdr); hd.kind == TYPE_PADDING && hd.cb == p.cap && hd.off == HEADER_SIZE
  }

  predicate Enabled(s: State, step: Step) {
    match step
    case LoadWriteInt(kind, cb) => s.writer.Idle? && kind in {TYPE_FRAME, TYPE_GSO} && 12 <= cb
    case LoadReadOffset => s.writer.LoadedInt?
    case CompareExchange => s.writer.LoadedBoth?
    case StoreHeaderByte => s.writer.StoringHeader? && s.writer.i < HEADER_SIZE
      && 0 <= s.writer.slot.hdr && s.writer.slot.hdr + HEADER_SIZE <= |s.m|
    case FillByte(k, off, _) =>
      k < |s.pending| && off < s.pending[k].cap && 0 <= s.pending[k].pay + off < |s.m|
    case StoreSize(used) => s.writer.Idle? && StartsAt(s, 0)
      && var hd := ReadHeader(s.m, s.pending[0].hdr);
      && used <= hd.cb && Align8(used) != Align8(hd.cb) && PaddingStored(s, PaddingPart(s.pending[0], used))
    case StoreCommit => StartsAt(s, 0) && (s.writer.Idle? || (s.writer.Shrunk? && StartsAt(s, 1)))
    case ReaderLoadRead => s.reader.Resting?
    case ReaderLoadCommit => s.reader.LoadedRead?
    case ReaderLoadByte => s.reader.Copying? && !CopyComplete(s.reader.got)
      && 0 <= NextAddress(s.reader.r, s.reader.got) < |s.m|
    case ReaderStoreRead => s.reader.Copying? && CopyComplete(s.reader.got)
  }

  /** The reader's next offset, computed from the header it has loaded. */
  function OffsetBehind(g: Geometry, r: int, hd: Header): int {
    NextHeader(g, Slot(r, r + hd.off, Align8(hd.cb)))
  }

  /** What the next commit stores. */
  function OffsetToCommit(s: State): int
    requires StartsAt(s, 0)
  {
    if s.writer.Shrunk? then s.writer.offNew else NextAt(s.m, s.g, s.pending[0].hdr)
  }

  /** What the next commit queues: the oldest pending frame and, if it was shortened, its padding. */
  function Committing(s: State): (fs: seq<Frame>)
    requires Enabled(s, StoreCommit)
    ensures |fs| == if s.writer.Shrunk? then 2 else 1
  {
    var f := FrameAt(s.m, s.g, s.pending[0].hdr);
    if s.writer.Shrunk? then [f, FrameAt(s.m, s.g, s.pending[1].hdr)] else [f]
  }

  function Next(s: State, step: Step): State
    requires Enabled(s, step)
  {
    match step
    case LoadWriteInt(kind, cb) => s.(writer := LoadedInt(kind, cb, s.offWriteInt))
    case LoadReadOffset => s.(writer := LoadedBoth(s.writer.kind, s.writer.cb, s.writer.w, s.offRead))
    case CompareExchange => Exchanged(s)
    case StoreHeaderByte =>
      var w := s.writer;
      s.(m := s.m[w.slot.hdr + w.i := Encode(w.hd)[w.i]],
         writer := if w.i + 1 == HEADER_SIZE then Idle else w.(i := w.i + 1),
         pending := if w.i + 1 == HEADER_SIZE then s.pending + [w.slot] else s.pending)
    case FillByte(k, off, b) => s.(m := Put(s.m, s.pending[k].pay + off, [b]))
    case StoreSize(used) =>
      var slot := s.pending[0];
      s.(m := Put(s.m, slot.hdr + 2, ToBytes(used, 2)), writer := Shrunk(NextHeader(s.g, slot)),
         pending := [UsedPart(slot, used), PaddingPart(slot, used)] + s.pending[1..])
    case StoreCommit =>
      s.(offWriteCom := OffsetToCommit(s), writer := Idle, pending := s.pending[|Committing(s)|..],
         sent := s.sent + Committing(s))
    case ReaderLoadRead => s.(reader := LoadedRead(s.offRead))
    case ReaderLoadCommit => s.(reader := if s.offWriteCom == s.reader.r then Resting else Copying(s.reader.r, []))
    case ReaderLoadByte =>
      s.(reader := s.reader.(got := s.reader.got + [s.m[NextAddress(s.reader.r, s.reader.got)]]))
    case ReaderStoreRead =>
      var hd := HeaderGot(s.reader.got);
      s.(offRead := OffsetBehind(s.g, s.reader.r, hd), reader := Resting,
         received := s.received + [Frame(hd.kind, s.reader.got[HEADER_SIZE..])])
  }

  /** The compare-and-exchange, decided on the read offset loaded earlier; a lost race or an overflow gives up. */
  function Exchanged(s: State): State
    requires s.writer.LoadedBoth?
  {
    var w := s.writer;
    var place := Place(s.g, w.w, w.r, Align8(w.cb));
    if place.None? then s.(writer := Idle)
    else if s.offWriteInt != w.w then s.(writer := Idle, races := s.races + 1)
    else
      var off := place.value.pay - place.value.hdr;
      if !(-0x8000_0000 <= off < 0x8000_0000) then s.(writer := Idle)
      else s.(offWriteInt := NextHeader(s.g, place.value),
              writer := StoringHeader(place.value, Header(w.kind, w.cb, off), 0))
  }

  // ----- invariant

  /** Bytes are committed or handed out. */
  predicate Outstanding(s: State) {
    s.pending != [] || s.offRead != s.offWriteCom
  }

  /**
   The stale read offset lies behind the current one, so the space it leaves is there; but a read offset equal to the
   write offset may have been loaded from a full ring.
   */
  predicate WriterOk(s: State)
    requires Inv(RingOf(s))
  {
    match s.writer
    case Idle => true
    case LoadedInt(kind, cb, w) => w == s.offWriteInt && IsValidFrameType(kind) && 12 <= cb
    case LoadedBoth(kind, cb, w, r) =>
      && w == s.offWriteInt && IsValidFrameType(kind) && 12 <= cb && Cursor(s.g, r)
      && (r == w || (!Full(s) && Dist(s.g, r, w) == Dist(s.g, r, s.offRead) + Dist(s.g, s.offRead, w)))
    case StoringHeader(slot, hd, i) =>
      && SlotOk(s.g, slot) && s.offWriteInt == NextHeader(s.g, slot) && IsValidFrameType(hd.kind)
      && slot.pay == slot.hdr + hd.off && slot.cap == Align8(hd.cb)
      && Dist(s.g, s.offRead, slot.hdr) + Foot(s.g, slot) <= s.g.Size()
      && i < HEADER_SIZE && s.m[slot.hdr..slot.hdr + i] == Encode(hd)[..i]
    case Shrunk(offNew) => |s.pending| >= 2 && offNew == NextHeader(s.g, s.pending[1])
  }

  /** In a full ring the newest place takes all that the others leave. */
  predicate NewestOk(s: State)
    requires Inv(RingOf(s))
  {
    Full(s) ==>
      var t := Newest(s);
      && SlotOk(s.g, t) && FrameStarts(s.m, s.g, t.hdr) && SlotAt(s.m, t.hdr) == t
      && Dist(s.g, s.offRead, t.hdr) + Foot(s.g, t) == s.g.Size() && NextHeader(s.g, t) == s.offWriteInt
  }

  /** What the reader has loaded is the beginning of the oldest frame's image. */
  predicate ReaderOk(s: State)
    requires Inv(RingOf(s))
  {
    match s.reader
    case Resting => true
    case LoadedRead(r) => r == s.offRead
    case Copying(r, got) =>
      && r == s.offRead && s.offRead != s.offWriteCom && FrameStarts(s.m, s.g, r)
      && |got| <= |Image(s.m, s.g, r)| && got == Image(s.m, s.g, r)[..|got|]
  }

  /** The bytes of a frame in the order the reader loads them. */
  function Image(m: seq<byte>, g: Geometry, at: int): (b: seq<byte>)
    requires MemoryOk(m, g) && InRing(g, at) && FrameStarts(m, g, at)
    ensures |b| == HEADER_SIZE + ReadHeader(m, at).cb
  {
    Encode(ReadHeader(m, at)) + FrameAt(m, g, at).data
  }

  predicate Good(s: State) {
    && Inv(RingOf(s)) && Cursor(s.g, s.offWriteInt) && WriterOk(s) && ReaderOk(s) && NewestOk(s)
    && s.races == 0 && s.pending == Pending(RingOf(s)) + (if Full(s) then [Newest(s)] else [])
    && s.sent == s.received + Committed(RingOf(s))
  }

  /**
   The exchange would hand out a place that reaches bytes still outstanding: the read offset came from a full ring.
   */
  predicate Overruns(s: State)
    requires s.writer.LoadedBoth?
  {
    var w := s.writer;
    var place := Place(s.g, w.w, w.r, Align8(w.cb));
    w.r == w.w && Outstanding(s) && place.Some? && Dist(s.g, w.w, s.offRead) < Foot(s.g, place.value)
  }

  /** The two steps that spoil the queue: an overrun, and committing an offset equal to the read offset. */
  predicate Loses(s: State, step: Step)
    requires Enabled(s, step)
  {
    match step
    case CompareExchange => Overruns(s)
    case StoreCommit => OffsetToCommit(s) == s.offRead
    case _ => false
  }

  // ----- the queue it refines

  datatype Fifo = Fifo(queue: seq<Frame>, sent: seq<Frame>, received: seq<Frame>)

  function Abstract(s: State): Fifo
    requires Inv(RingOf(s))
  {
    Fifo(Committed(RingOf(s)), s.sent, s.received)
  }

  /** Nothing visible happens, frames are queued, or the oldest frame is delivered. */
  ghost predicate FifoStep(a: Fifo, b: Fifo) {
    || a == b
    || (exists fs: seq<Frame> :: b == Fifo(a.queue + fs, a.sent + fs, a.received))
    || (a.queue != [] && b == Fifo(a.queue[1..], a.sent, a.received + [a.queue[0]]))
  }

  // ----- loads and the compare-and-exchange

  lemma LoadsKeep(s: State, step: Step)
    requires Good(s) && Enabled(s, step)
    requires step.LoadWriteInt? || step.LoadReadOffset? || step.ReaderLoadRead? || step.ReaderLoadCommit?
    ensures Good(Next(s, step)) && Abstract(Next(s, step)) == Abstract(s)
  {
    var s' := Next(s, step);
    if step.LoadWriteInt? || step.LoadReadOffset? {
      WriterLoads(s, s', step);
    } else {
      ReaderLoads(s, s', step);
    }
    hide *;
    LoadsGood(s, s');
  }

  lemma WriterLoads(s: State, s': State, step: Step)
    requires Good(s) && Enabled(s, step) && s' == Next(s, step) && (step.LoadWriteInt? || step.LoadReadOffset?)
    ensures s' == s.(writer := s'.writer) && RingOf(s') == RingOf(s) && Full(s') == Full(s)
    ensures WriterOk(s') && ReaderOk(s')
  {
  }

  lemma ReaderLoads(s: State, s': State, step: Step)
    requires Good(s) && Enabled(s, step) && s' == Next(s, step) && (step.ReaderLoadRead? || step.ReaderLoadCommit?)
    ensures s' == s.(reader := s'.reader) && RingOf(s') == RingOf(s) && Full(s') == Full(s)
    ensures WriterOk(s') && ReaderOk(s')
  {
    hide Decode, Encode, Align8, Inv, Committed, Pending, FrameStarts;
    assert RingOf(s') == RingOf(s);
    if s'.reader.Copying? {
      HeadStarts(RingOf(s));
    }
  }

  lemma HeadStarts(r: RingState)
    requires Inv(r) && r.offRead != r.offWriteCom
    ensures Shape(r) && FrameStarts(r.m, r.g, r.offRead)
  {
  }

  /** Only what the writer and the reader have loaded has changed. */
  lemma LoadsGood(s: State, s': State)
    requires Good(s) && s' == s.(writer := s'.writer, reader := s'.reader) && RingOf(s') == RingOf(s)
        && Full(s') == Full(s)
    requires WriterOk(s') && ReaderOk(s')
    ensures Good(s') && Abstract(s') == Abstract(s)
  {
  }

  /** Unless it overruns, a placement decided on the stale read offset fits into what is free now. */
  lemma PlacementFits(s: State, slot: Slot)
    requires Good(s) && s.writer.LoadedBoth? && !Overruns(s)
    requires Place(s.g, s.writer.w, s.writer.r, Align8(s.writer.cb)) == Some(slot)
    ensures !Full(s) && slot.hdr == s.offWriteInt == s.writer.w && SlotOk(s.g, slot) && slot.cap == Align8(s.writer.cb)
    ensures GeometryOk(s.g)
    ensures Dist(s.g, s.offRead, slot.hdr) + Foot(s.g, slot) <= s.g.Size()
  {
  }

  /** The exchange keeps the invariant and is invisible. It never loses a race. */
  lemma ExchangeKeeps(s: State)
    requires Good(s) && Enabled(s, CompareExchange) && !Overruns(s)
    ensures Good(Next(s, CompareExchange)) && Abstract(Next(s, CompareExchange)) == Abstract(s)
  {
    hide Good, Abstract, Place, Align8, Overruns;
    var s', place := Next(s, CompareExchange), Place(s.g, s.writer.w, s.writer.r, Align8(s.writer.cb));
    assert s' == Exchanged(s);
    if place.Some? {
      hide *;
      PlacementFits(s, place.value);
      ExchangeFields(s, place.value);
      Reserves(s, s', place.value);
    } else {
      assert s' == s.(writer := Idle);
      GivesUp(s, s');
    }
  }

  /** An overflow leaves everything as it was. */
  lemma GivesUp(s: State, s': State)
    requires Good(s) && s.writer.LoadedBoth? && s' == s.(writer := Idle)
    ensures Good(s') && Abstract(s') == Abstract(s)
  {
  }

  lemma SameReader(s: State, s': State)
    requires Inv(RingOf(s)) && ReaderOk(s) && RingOf(s') == RingOf(s) && s'.reader == s.reader
    ensures ReaderOk(s')
  {
  }

  /** Reserving a place that fits keeps the invariant. */
  lemma Reserves(s: State, s': State, slot: Slot)
    requires Good(s) && s.writer.LoadedBoth? && !Full(s) && slot.hdr == s.offWriteInt && SlotOk(s.g, slot)
    requires slot.cap == Align8(s.writer.cb) && Dist(s.g, s.offRead, slot.hdr) + Foot(s.g, slot) <= s.g.Size()
    requires -0x8000_0000 <= slot.pay - slot.hdr < 0x8000_0000
    requires s' == s.(offWriteInt := NextHeader(s.g, slot),
                      writer := StoringHeader(slot, Header(s.writer.kind, s.writer.cb, slot.pay - slot.hdr), 0))
    ensures Good(s') && Abstract(s') == Abstract(s)
  {
    hide Decode, Encode, Align8, Inv, Committed, Pending, ReaderOk, NextHeader, Foot, Dist;
    InvHasShape(RingOf(s));
    Align8IsAligned(s.writer.cb);
    NextAligned(s.g, slot);
    assert RingOf(s') == RingOf(s);
    SameReader(s, s');
  }

  lemma ExchangeFields(s: State, slot: Slot)
    requires Good(s) && s.writer.LoadedBoth? && SlotOk(s.g, slot) && GeometryOk(s.g) && s.offWriteInt == s.writer.w
    requires Place(s.g, s.writer.w, s.writer.r, Align8(s.writer.cb)) == Some(slot)
    ensures -0x8000_0000 <= slot.pay - slot.hdr < 0x8000_0000
    ensures Exchanged(s) == s.(offWriteInt := NextHeader(s.g, slot),
          writer := StoringHeader(slot, Header(s.writer.kind, s.writer.cb, slot.pay - slot.hdr), 0))
  {
    hide Place, Align8, Good, NextHeader;
  }

  // ----- stores into memory

  /** Bytes stored outside the committed frames do not disturb the reader's copy. */
  lemma ReaderUndisturbed(s: State, s': State)
    requires Good(s) && Inv(RingOf(s'))
    requires s'.g == s.g && s'.offRead == s.offRead && s'.offWriteCom == s.offWriteCom && s'.reader == s.reader
    requires Agree(s.m, s'.m, s.g, s.offRead, Dist(s.g, s.offRead, s.offWriteCom))
    ensures ReaderOk(s')
  {
    hide Linked, Slots, Queue, Decode, Encode, Align8;
    if s.reader.Copying? {
      WalkUncons(s.m, s.g, s.offRead, s.offWriteCom);
      FrameStable(s.m, s'.m, s.g, s.offRead, Dist(s.g, s.offRead, s.offWriteCom));
    }
  }

  /** A header byte falls into the reserved place, outside everything committed or pending. */
  lemma HeaderByteLands(s: State, s': State)
    requires Good(s) && Enabled(s, StoreHeaderByte) && s' == Next(s, StoreHeaderByte)
    ensures var g, r, h := s.g, s.offRead, s.writer.slot.hdr;
            && MemoryOk(s'.m, g) && Agree(s.m, s'.m, g, r, Dist(g, r, h))
            && s'.m[h..h + s.writer.i + 1] == Encode(s.writer.hd)[..s.writer.i + 1]
  {
    hide Decode, Encode, Align8, Inv, Committed, Pending, ReaderOk, NewestOk, Agree;
    InvHasShape(RingOf(s));
    OneByteLands(s.m, s'.m, s.g, s.offRead, s.writer.slot, Encode(s.writer.hd), s.writer.i);
  }

  lemma OneByteLands(m: seq<byte>, m': seq<byte>, g: Geometry, r: int, slot: Slot, image: seq<byte>, i: nat)
    requires MemoryOk(m, g) && InRing(g, r) && SlotOk(g, slot) && Dist(g, r, slot.hdr) + Foot(g, slot) <= g.Size()
    requires |image| == HEADER_SIZE && i < HEADER_SIZE && m' == m[slot.hdr + i := image[i]]
    requires m[slot.hdr..slot.hdr + i] == image[..i]
    ensures MemoryOk(m', g) && Agree(m, m', g, r, Dist(g, r, slot.hdr))
    ensures m'[slot.hdr..slot.hdr + i + 1] == image[..i + 1]
  {
    var h := slot.hdr;
    WriteLeavesBefore(m, m', g, r, slot);
    forall j | 0 <= j < i + 1
      ensures m'[h..h + i + 1][j] == image[j]
    {
      assert j < i ==> m[h..h + i][j] == image[..i][j];
    }
  }

  lemma HeaderByteKeeps(s: State)
    requires Good(s) && Enabled(s, StoreHeaderByte)
    ensures Good(Next(s, StoreHeaderByte)) && Abstract(Next(s, StoreHeaderByte)) == Abstract(s)
  {
    var s' := Next(s, StoreHeaderByte);
    HeaderByteLands(s, s');
    hide *;
    if s.writer.i + 1 < HEADER_SIZE {
      EarlyHeaderByte(s, s', s.writer.slot);
    } else {
      LastHeaderByte(s, s', s.writer.slot);
    }
  }

  /** A header byte before the last changes nothing yet. */
  lemma EarlyHeaderByte(s: State, s': State, slot: Slot)
    requires Good(s) && Enabled(s, StoreHeaderByte) && s' == Next(s, StoreHeaderByte)
    requires slot == s.writer.slot && s.writer.i + 1 < HEADER_SIZE
    requires MemoryOk(s'.m, s.g) && Agree(s.m, s'.m, s.g, s.offRead, Dist(s.g, s.offRead, slot.hdr))
    requires s'.m[slot.hdr..slot.hdr + s.writer.i + 1] == Encode(s.writer.hd)[..s.writer.i + 1]
    ensures Good(s') && Abstract(s') == Abstract(s)
  {
    hide Decode, Encode, Align8, Inv, Committed, Pending, ReaderOk, Agree, FrameStarts;
    InvHasShape(RingOf(s));
    CommittedWithin(s, s', slot.hdr);
    ScratchKeeps(RingOf(s), RingOf(s'));
    ReaderUndisturbed(s, s');
  }

  /** The last header byte makes the place pending, and the ring full if nothing is left. */
  lemma LastHeaderByte(s: State, s': State, slot: Slot)
    requires Good(s) && Enabled(s, StoreHeaderByte) && s' == Next(s, StoreHeaderByte)
    requires slot == s.writer.slot && s.writer.i + 1 == HEADER_SIZE
    requires MemoryOk(s'.m, s.g) && Agree(s.m, s'.m, s.g, s.offRead, Dist(s.g, s.offRead, slot.hdr))
    requires s'.m[slot.hdr..slot.hdr + s.writer.i + 1] == Encode(s.writer.hd)[..s.writer.i + 1]
    ensures Good(s') && Abstract(s') == Abstract(s)
  {
    hide Decode, Encode, Align8, Inv, Committed, Pending, ReaderOk, Agree, FrameStarts;
    InvHasShape(RingOf(s));
    CommittedWithin(s, s', slot.hdr);
    HeaderComplete(s'.m, s.g, slot, s.writer.hd);
    NextMeetsReader(s.g, s.offRead, slot);
    if s.offWriteInt == s.offRead {
      ScratchKeeps(RingOf(s), RingOf(s'));
    } else {
      OneMoreFrame(RingOf(s), RingOf(s'), slot);
    }
    ReaderUndisturbed(s, s');
  }

  lemma CommittedWithin(s: State, s': State, h: int)
    requires Inv(RingOf(s)) && MemoryOk(s'.m, s.g) && InRing(s.g, h)
    requires Dist(s.g, s.offRead, s.offWriteCom) <= Dist(s.g, s.offRead, h)
    requires Agree(s.m, s'.m, s.g, s.offRead, Dist(s.g, s.offRead, h))
    ensures Agree(s.m, s'.m, s.g, s.offRead, Dist(s.g, s.offRead, s.offWriteCom))
  {
  }

  lemma HeaderComplete(m: seq<byte>, g: Geometry, slot: Slot, hd: Header)
    requires MemoryOk(m, g) && SlotOk(g, slot) && m[slot.hdr..slot.hdr + 8] == Encode(hd)[..8]
    requires IsValidFrameType(hd.kind) && slot.pay == slot.hdr + hd.off && slot.cap == Align8(hd.cb)
    ensures ReadHeader(m, slot.hdr) == hd && FrameStarts(m, g, slot.hdr) && SlotAt(m, slot.hdr) == slot
  {
    DecodeEncode(hd);
    assert Encode(hd)[..8] == Encode(hd);
  }

  /** Where the `k`-th pending place lies, as counted from the reader. */
  lemma PendingPlace(r: RingState, k: nat)
    requires Inv(r) && k < |Pending(r)|
    ensures var slot := Pending(r)[k];
            && SlotOk(r.g, slot)
            && Dist(r.g, r.offRead, r.offWriteCom) <= Dist(r.g, r.offRead, slot.hdr)
            && Dist(r.g, r.offRead, slot.hdr) + Foot(r.g, slot) <= Dist(r.g, r.offRead, r.offWriteInt) < r.g.Size()
  {
    hide Decode, Linked, Slots, Queue, FrameAt, Align8;
    var g, c, w, h := r.g, r.offWriteCom, r.offWriteInt, Pending(r)[k].hdr;
    WalkCut(r.m, g, c, w, k);
    DistAdd(g, r.offRead, c, h);
    DistAdd(g, r.offRead, w, w);
  }

  /** A byte stored into a pending payload leaves a header under construction alone. */
  lemma HeaderUndisturbed(s: State, s': State, at: int, b: byte, k: nat)
    requires Good(s) && k < |s.pending| && s.pending[k].pay <= at < s.pending[k].pay + s.pending[k].cap
    requires 0 <= at < |s.m| && s' == s.(m := Put(s.m, at, [b])) && Inv(RingOf(s'))
    ensures WriterOk(s')
  {
    hide Decode, Encode, Align8, Inv, Committed, Pending, ReaderOk, Put;
    if s.writer.StoringHeader? {
      var w := s.writer;
      InvHasShape(RingOf(s));
      PendingPlace(RingOf(s), k);
      LaterPlaceDisjoint(s.g, s.offRead, s.pending[k], w.slot, at);
      PutElsewhere(s.m, at, [b], w.slot.hdr, w.slot.hdr + w.i);
    }
  }

  /** A byte stored into a pending payload leaves the newest place of a full ring a frame. */
  lemma NewestUndisturbed(s: State, s': State, at: int, b: byte, k: nat)
    requires Good(s) && k < |s.pending| && s.pending[k].pay <= at < s.pending[k].pay + s.pending[k].cap
    requires 0 <= at < |s.m| && s' == s.(m := Put(s.m, at, [b])) && Inv(RingOf(s'))
    ensures NewestOk(s')
  {
    hide Decode, Encode, Align8, Inv, Committed, Pending, ReaderOk, WriterOk, Put;
    if Full(s) {
      var r, t := RingOf(s), Newest(s);
      InvHasShape(r);
      if k < |s.pending| - 1 {
        PendingPlace(r, k);
        LaterPlaceDisjoint(s.g, s.offRead, s.pending[k], t, at);
      }
      PutElsewhere(s.m, at, [b], t.hdr, t.hdr + HEADER_SIZE);
    }
  }

  lemma FillByteKeeps(s: State, k: nat, off: nat, b: byte)
    requires Good(s) && Enabled(s, FillByte(k, off, b))
    ensures Good(Next(s, FillByte(k, off, b))) && Abstract(Next(s, FillByte(k, off, b))) == Abstract(s)
  {
    var s', at := Next(s, FillByte(k, off, b)), s.pending[k].pay + off;
    var slot := s.pending[k];
    FillByteLands(s, s', k, at, b);
    hide *;
    ReaderUndisturbed(s, s');
    HeaderUndisturbed(s, s', at, b, k);
    NewestUndisturbed(s, s', at, b, k);
    FillByteGood(s, s');
  }

  lemma FillByteGood(s: State, s': State)
    requires Good(s) && s' == s.(m := s'.m) && Inv(RingOf(s')) && Committed(RingOf(s')) == Committed(RingOf(s))
    requires Pending(RingOf(s')) == Pending(RingOf(s)) && ReaderOk(s') && WriterOk(s') && NewestOk(s')
    ensures Good(s') && Abstract(s') == Abstract(s)
  {
    hide Inv, Committed, Pending, ReaderOk, WriterOk, NewestOk;
  }

  /** A byte of a pending payload leaves the walks over committed and pending frames alone. */
  lemma FillByteLands(s: State, s': State, k: nat, at: int, b: byte)
    requires Good(s) && k < |s.pending| && s.pending[k].pay <= at < s.pending[k].pay + s.pending[k].cap
    requires 0 <= at < |s.m| && s' == s.(m := Put(s.m, at, [b]))
    ensures Inv(RingOf(s')) && Committed(RingOf(s')) == Committed(RingOf(s))
        && Pending(RingOf(s')) == Pending(RingOf(s))
    ensures Agree(s.m, s'.m, s.g, s.offRead, Dist(s.g, s.offRead, s.offWriteCom))
  {
    var r, slot := RingOf(s), s.pending[k];
    hide Decode, Encode, Align8, Inv, Committed, Pending, ReaderOk, WriterOk, NewestOk, Agree, FrameStarts;
    InvHasShape(r);
    FilledPlace(s, k);
    WriteLeavesBefore(s.m, s'.m, s.g, s.offRead, slot);
    if k < |Pending(r)| {
      assert RingOf(s') == Fill(r, at, [b]);
      FillKeeps(r, k, at, [b]);
    } else {
      ScratchKeeps(r, RingOf(s'));
    }
    hide Put;
    CommittedWithin(s, s', slot.hdr);
  }

  /** Where a pending place lies, the newest of a full ring included. */
  lemma FilledPlace(s: State, k: nat)
    requires Good(s) && k < |s.pending|
    ensures var r, slot := RingOf(s), s.pending[k];
            && SlotOk(s.g, slot)
            && Dist(s.g, s.offRead, s.offWriteCom) <= Dist(s.g, s.offRead, slot.hdr)
            && Dist(s.g, s.offRead, slot.hdr) + Foot(s.g, slot) <= s.g.Size()
            && (k < |Pending(r)| ==> Pending(r)[k] == slot)
            && (k >= |Pending(r)| ==> Full(s) && slot == Newest(s) && slot.hdr == r.offWriteInt)
  {
    hide Decode, Encode, Align8, Inv, Committed, Pending, ReaderOk, WriterOk;
    InvHasShape(RingOf(s));
    if k < |Pending(RingOf(s))| {
      PendingPlace(RingOf(s), k);
    }
    WithinReach(RingOf(s));
  }

  lemma WithinReach(r: RingState)
    requires Inv(r)
    ensures Dist(r.g, r.offRead, r.offWriteCom) <= Dist(r.g, r.offRead, r.offWriteInt)
  {
  }

  // ----- shortening the oldest place

  /** A pending place that is not the newest of a full ring is divided within the walk over the pending places. */
  lemma PendingShrinks(s: State, s': State, used: u16, slot: Slot, p: Slot)
    requires Good(s) && s.writer.Idle? && Pending(RingOf(s)) != [] && SizeStoredAs(s, s', used, slot, p)
    ensures Good(s') && Abstract(s') == Abstract(s)
  {
    var r, r' := RingOf(s), RingOf(s');
    hide Decode, Encode, Align8, Inv, Committed, Pending, ReaderOk, Agree, FrameStarts, Occupies, SlotAt;
    InvHasShape(r);
    EmptyWalk(r);
    OldestDivided(r, r', slot, used, p);
    NewestApart(s, s', slot);
    ReaderUndisturbed(s, s');
  }

  /** Bytes written only inside another pending place leave the newest place of a full ring a frame. */
  lemma NewestApart(s: State, s': State, slot: Slot)
    requires Good(s) && Pending(RingOf(s)) != [] && slot == Pending(RingOf(s))[0]
    requires MemoryOk(s'.m, s.g) && (forall x | s.g.start <= x < s.g.end && s.m[x] != s'.m[x] :: Occupies(slot, x))
    ensures Full(s) ==> var t := Newest(s); FrameStarts(s'.m, s.g, t.hdr) && SlotAt(s'.m, t.hdr) == t
  {
    hide Decode, Encode, Align8, Inv, Committed, Pending, ReaderOk, WriterOk;
    if Full(s) {
      var t := Newest(s);
      InvHasShape(RingOf(s));
      PendingPlace(RingOf(s), 0);
      forall x | t.hdr <= x < t.hdr + HEADER_SIZE
        ensures s.m[x] == s'.m[x]
      {
        LaterPlaceDisjoint(s.g, s.offRead, slot, t, x);
      }
      assert s.m[t.hdr..t.hdr + HEADER_SIZE] == s'.m[t.hdr..t.hdr + HEADER_SIZE];
    }
  }

  /** The newest place of a full ring is divided into a pending place and a smaller newest one. */
  lemma NewestShrinks(s: State, s': State, used: u16, slot: Slot, p: Slot)
    requires Good(s) && s.writer.Idle? && Pending(RingOf(s)) == [] && SizeStoredAs(s, s', used, slot, p)
    ensures Good(s') && Abstract(s') == Abstract(s)
  {
    var r, r' := RingOf(s), RingOf(s');
    hide Decode, Encode, Align8, Inv, Committed, Pending, ReaderOk, Agree, FrameStarts, Occupies, SlotAt;
    InvHasShape(r);
    EmptyWalk(r);
    PaddedStarts(s.m, s'.m, s.g, slot.hdr, slot, used, p);
    NextMeetsReader(s.g, s.offRead, UsedPart(slot, used));
    OneMoreFrame(r, r', UsedPart(slot, used));
    ReaderUndisturbed(s, s');
  }

  // ----- the stores that publish

  /** Storing the size field divides the oldest pending place into the used part and its padding, and is invisible. */
  lemma StoreSizeKeeps(s: State, used: u16)
    requires Good(s) && Enabled(s, StoreSize(used))
    ensures Good(Next(s, StoreSize(used))) && Abstract(Next(s, StoreSize(used))) == Abstract(s)
  {
    var r := RingOf(s);
    CanShrink(s, used);
    hide *;
    var s', slot := Next(s, StoreSize(used)), s.pending[0];
    SizeLands(s, used, slot, PaddingPart(slot, used));
    if Pending(r) == [] {
      NewestShrinks(s, s', used, slot, PaddingPart(slot, used));
    } else {
      PendingShrinks(s, s', used, slot, PaddingPart(slot, used));
    }
  }

  lemma CanShrink(s: State, used: u16)
    requires Good(s) && Enabled(s, StoreSize(used))
    ensures s.writer.Idle? && s.pending != [] && Inv(RingOf(s))
  {
  }

  /** What the store of the size field does to memory and to the state. */
  ghost predicate SizeStoredAs(s: State, s': State, used: u16, slot: Slot, p: Slot)
    requires Inv(RingOf(s))
  {
    && slot.hdr == s.offWriteCom && SlotOk(s.g, slot) && SlotOk(s.g, p) && 0 <= p.cap < 0x1_0000
    && FrameStarts(s.m, s.g, slot.hdr) && SlotAt(s.m, slot.hdr) == slot && p == PaddingPart(slot, used)
    && used <= ReadHeader(s.m, slot.hdr).cb && Align8(used) != Align8(ReadHeader(s.m, slot.hdr).cb)
    && s.pending != [] && slot == s.pending[0]
    && s' == s.(m := s'.m, writer := Shrunk(NextHeader(s.g, p)), pending := [UsedPart(slot, used), p] + s.pending[1..])
    && MemoryOk(s'.m, s.g)
    && ReadHeader(s'.m, slot.hdr) == ReadHeader(s.m, slot.hdr).(cb := used)
    && ReadHeader(s'.m, p.hdr) == Header(TYPE_PADDING, p.cap, 8)
    && (forall x | s.g.start <= x < s.g.end && s.m[x] != s'.m[x] :: Occupies(slot, x))
    && Dist(s.g, s.offRead, slot.hdr) + Foot(s.g, slot) <= s.g.Size()
    && Agree(s.m, s'.m, s.g, s.offRead, Dist(s.g, s.offRead, s.offWriteCom))
  }

  lemma SizeLands(s: State, used: u16, slot: Slot, p: Slot)
    requires Good(s) && Enabled(s, StoreSize(used)) && slot == s.pending[0] && p == PaddingPart(slot, used)
    ensures SizeStoredAs(s, Next(s, StoreSize(used)), used, slot, p)
  {
    hide Decode, Encode, Align8, Inv, Committed, Pending, ReaderOk, WriterOk, NewestOk, Agree, ToBytes, Put;
    InvHasShape(RingOf(s));
    PendingStarts(s, 0);
    FilledPlace(s, 0);
    var s' := Next(s, StoreSize(used));
    PartsFillSlot(s.g, slot, ReadHeader(s.m, slot.hdr).cb, used);
    SizeStored(s.m, s'.m, s.g, slot, used, p);
    WriteLeavesBefore(s.m, s'.m, s.g, s.offRead, slot);
  }

  /**
   A commit of the oldest place handed out finds it at the committed offset and queues the frame it holds, and its
   padding if it was shortened.
   */
  lemma CommitEnqueues(s: State) returns (fs: seq<Frame>)
    requires Good(s) && Enabled(s, StoreCommit) && !Loses(s, StoreCommit)
    ensures s.pending[0].hdr == s.offWriteCom && fs == Committing(s)
    ensures Good(Next(s, StoreCommit))
    ensures Abstract(Next(s, StoreCommit)) == Fifo(Abstract(s).queue + fs, s.sent + fs, s.received)
  {
    fs := Committing(s);
    OldestPending(s);
    if s.writer.Shrunk? {
      CommitsTwo(s);
    } else {
      CommitsOne(s);
    }
  }

  /**
   The oldest pending place starts at the committed offset, and only a commit of everything in a full ring meets the
   reader.
   */
  lemma OldestPending(s: State)
    requires Good(s) && Enabled(s, StoreCommit)
    ensures s.pending[0].hdr == s.offWriteCom
    ensures !Loses(s, StoreCommit) ==> |Pending(RingOf(s))| >= |Committing(s)|
  {
  }

  lemma CommitsOne(s: State)
    requires Good(s) && Enabled(s, StoreCommit) && s.writer.Idle? && |Pending(RingOf(s))| >= 1
    requires s.pending[0].hdr == s.offWriteCom
    ensures Good(Next(s, StoreCommit))
    ensures Abstract(Next(s, StoreCommit))
        == Fifo(Abstract(s).queue + Committing(s), s.sent + Committing(s), s.received)
  {
    var r := RingOf(s);
    hide Decode, Encode, Align8, Inv, Committed, Pending, ReaderOk, NewestOk;
    InvHasShape(r);
    var r' := OneCommit(r);
    CommitKeepsRest(s, Next(s, StoreCommit), r');
  }

  lemma CommitsTwo(s: State)
    requires Good(s) && Enabled(s, StoreCommit) && s.writer.Shrunk? && |Pending(RingOf(s))| >= 2
    requires s.pending[0].hdr == s.offWriteCom
    ensures Good(Next(s, StoreCommit))
    ensures Abstract(Next(s, StoreCommit))
        == Fifo(Abstract(s).queue + Committing(s), s.sent + Committing(s), s.received)
  {
    var r := RingOf(s);
    hide Decode, Encode, Align8, Inv, Committed, Pending, ReaderOk, NewestOk;
    InvHasShape(r);
    var r' := TwoCommits(r);
    var s' := Next(s, StoreCommit);
    CommitKeepsRest(s, s', r');
  }

  /** What a commit of pending frames leaves alone. */
  lemma CommitKeepsRest(s: State, s': State, r': RingState)
    requires Good(s) && Enabled(s, StoreCommit) && s' == Next(s, StoreCommit)
    requires |Committing(s)| <= |Pending(RingOf(s))|
    requires Inv(r') && r' == RingOf(s).(offWriteCom := s'.offWriteCom)
    requires Pending(r') == Pending(RingOf(s))[|Committing(s)|..]
        && Committed(r') == Committed(RingOf(s)) + Committing(s)
    ensures Good(s') && Abstract(s') == Fifo(Abstract(s).queue + Committing(s), s.sent + Committing(s), s.received)
  {
    hide Decode, Encode, Align8, Linked, Slots, Queue, FrameAt, Committing;
    EmptyWalk(r');
    assert Full(s') == Full(s);
    assert RingOf(s') == r';
    assert s'.sent == s.received + (Committed(RingOf(s)) + Committing(s));
  }

  lemma EmptyWalk(r: RingState)
    requires Inv(r)
    ensures r.offWriteCom == r.offWriteInt <==> Pending(r) == []
    ensures r.offRead == r.offWriteCom <==> Committed(r) == []
  {
  }

  // ----- the reader

  /** Every byte of the image is where the reader looks for it. */
  lemma ImageInMemory(m: seq<byte>, g: Geometry, at: int, j: nat)
    requires MemoryOk(m, g) && InRing(g, at) && FrameStarts(m, g, at) && j < |Image(m, g, at)|
    ensures var a := if j < HEADER_SIZE then at + j else at + ReadHeader(m, at).off + j - HEADER_SIZE;
            0 <= a < |m| && m[a] == Image(m, g, at)[j]
  {
    EncodeDecode(m[at..at + HEADER_SIZE]);
    hide Decode, Encode, Align8;
  }

  /** Once the reader has the header bytes it knows the header, and then where the payload lies and when it is done. */
  lemma HeaderKnown(m: seq<byte>, g: Geometry, at: int, got: seq<byte>)
    requires MemoryOk(m, g) && InRing(g, at) && FrameStarts(m, g, at)
    requires HEADER_SIZE <= |got| <= |Image(m, g, at)| && got == Image(m, g, at)[..|got|]
    ensures HeaderGot(got) == ReadHeader(m, at)
    ensures CopyComplete(got) <==> got == Image(m, g, at)
    ensures CopyComplete(got) ==> got[HEADER_SIZE..] == FrameAt(m, g, at).data
  {
    hide Decode, Encode, Align8;
    DecodeEncode(ReadHeader(m, at));
    assert got[..HEADER_SIZE] == Encode(ReadHeader(m, at));
  }

  lemma ReadByteKeeps(s: State)
    requires Good(s) && Enabled(s, ReaderLoadByte)
    ensures Good(Next(s, ReaderLoadByte)) && Abstract(Next(s, ReaderLoadByte)) == Abstract(s)
  {
    hide Decode, Encode, Align8, Inv, Committed, Pending, FrameStarts, FrameAt;
    var s' := Next(s, ReaderLoadByte);
    assert RingOf(s') == RingOf(s);
    InvHasShape(RingOf(s));
    OneMoreByte(s.m, s.g, s.reader.r, s.reader.got);
  }

  lemma OneMoreByte(m: seq<byte>, g: Geometry, r: int, got: seq<byte>)
    requires MemoryOk(m, g) && InRing(g, r) && FrameStarts(m, g, r) && !CopyComplete(got)
    requires |got| <= |Image(m, g, r)| && got == Image(m, g, r)[..|got|]
    ensures 0 <= NextAddress(r, got) < |m|
    ensures |got| < |Image(m, g, r)| && got + [m[NextAddress(r, got)]] == Image(m, g, r)[..|got| + 1]
  {
    hide Decode, Encode, Align8, Image, FrameStarts;
    var image := Image(m, g, r);
    if HEADER_SIZE <= |got| {
      HeaderKnown(m, g, r, got);
      assert image[..|image|] == image;
    }
    ImageInMemory(m, g, r, |got|);
    assert image[..|got| + 1] == image[..|got|] + [image[|got|]];
  }

  /** A reader in the middle of a frame can always go on: its next address is in memory, or the copy is complete. */
  lemma ReaderNotStuck(s: State)
    requires Good(s) && s.reader.Copying?
    ensures Enabled(s, ReaderLoadByte) || Enabled(s, ReaderStoreRead)
  {
    hide Decode, Encode, Align8, Linked, Slots, Queue;
    var r, got := s.reader.r, s.reader.got;
    if HEADER_SIZE <= |got| {
      HeaderKnown(s.m, s.g, r, got);
    }
    if !CopyComplete(got) {
      ImageInMemory(s.m, s.g, r, |got|);
    }
  }

  /** Nor can the writer get stuck: what it has handed out starts with a well-formed header at the committed offset. */
  lemma WriterNotStuck(s: State)
    requires Good(s) && (s.writer.Idle? || s.writer.Shrunk?) && s.pending != []
    ensures Enabled(s, StoreCommit) && s.pending[0].hdr == s.offWriteCom
  {
    hide Decode, Encode, Align8, Queue;
    PendingStarts(s, 0);
    if s.writer.Shrunk? {
      PendingStarts(s, 1);
    }
  }

  /** Every pending place starts with a well-formed header, the oldest at the committed offset. */
  lemma PendingStarts(s: State, k: nat)
    requires Good(s) && k < |s.pending|
    ensures StartsAt(s, k) && SlotAt(s.m, s.pending[k].hdr) == s.pending[k]
    ensures s.pending[0].hdr == s.offWriteCom
  {
    hide Decode, Encode, Align8, Linked, Queue, ReaderOk, WriterOk;
    var r := RingOf(s);
    EmptyWalk(r);
    if k < |Pending(r)| {
      WalkReaches(s.m, s.g, s.offWriteCom, r.offWriteInt, k);
    }
  }

  /** Storing the read offset delivers the oldest frame, whole and unchanged, and moves to the next header. */
  lemma StoreReadDequeues(s: State)
    requires Good(s) && Enabled(s, ReaderStoreRead)
    ensures var s' := Next(s, ReaderStoreRead);
            && Good(s') && Abstract(s).queue != []
            && Abstract(s') == Fifo(Abstract(s).queue[1..], s.sent, s.received + [Abstract(s).queue[0]])
            && !Full(s') && s'.offRead != s.offRead
            && Dist(s.g, s'.offRead, RingOf(s).offWriteInt) <= Dist(s.g, s.offRead, RingOf(s).offWriteInt)
  {
    hide Decode, Encode, Align8, Inv, Committed, Pending, FrameStarts, FrameAt, NewestOk;
    var s' := Next(s, ReaderStoreRead);
    var r := RingOf(s);
    InvHasShape(r);
    var f := FrameAt(s.m, s.g, s.offRead);
    HeaderKnown(s.m, s.g, s.reader.r, s.reader.got);
    FrameFields(s.m, s.g, s.offRead);
    assert s'.offRead == Skip(r).offRead;
    SkipDequeues(r);
    InvHasShape(Skip(r));
    BetweenExtends(s.g, s.offRead, s'.offRead, s.offWriteCom, r.offWriteInt);
    SpaceReleased(s, s', r);
    assert s'.received == s.received + [f];
    FrontDelivered(s.received, f, Committed(RingOf(s')));
    StaleStaysBehind(s, s');
  }

  /** A moved read offset opens a full ring again; nothing else changes for the frames behind it. */
  lemma SpaceReleased(s: State, s': State, r: RingState)
    requires Good(s) && r == RingOf(s) && r.offRead != r.offWriteCom && Inv(Skip(r)) && s'.offRead == Skip(r).offRead
    requires s' == s.(offRead := s'.offRead, reader := s'.reader, received := s'.received)
    requires 8 <= Dist(s.g, s.offRead, s'.offRead)
    requires Dist(s.g, s.offRead, s'.offRead) + Dist(s.g, s'.offRead, s.offWriteCom)
        == Dist(s.g, s.offRead, s.offWriteCom)
    requires Pending(Skip(r)) == Pending(r)
    ensures !Full(s') && Inv(RingOf(s')) && Committed(RingOf(s')) == Committed(Skip(r))
        && s'.pending == Pending(RingOf(s'))
  {
    hide Decode, Encode, Align8, Linked, Slots, Queue, FrameAt, FrameStarts;
    EmptyWalk(r);
    if Full(s) {
      var t := Newest(s);
      BetweenExtends(s.g, s.offRead, s'.offRead, s.offWriteCom, r.offWriteInt);
      OneMoreFrame(Skip(r), RingOf(s'), t);
    } else {
      assert RingOf(s') == Skip(r);
      EmptyWalk(Skip(r));
    }
  }

  lemma FrontDelivered(out: seq<Frame>, f: Frame, q: seq<Frame>)
    ensures out + ([f] + q) == (out + [f]) + q && ([f] + q)[1..] == q
  {
  }

  /** Moving the read offset leaves a stale copy of it behind and only adds space for a header under construction. */
  lemma StaleStaysBehind(s: State, s': State)
    requires Good(s) && Inv(RingOf(s')) && s' == s.(offRead := s'.offRead, reader := s'.reader, received := s'.received)
    requires Dist(s.g, s.offRead, s'.offRead) + Dist(s.g, s'.offRead, s.offWriteCom)
        == Dist(s.g, s.offRead, s.offWriteCom)
    requires !Full(s')
    ensures WriterOk(s') && NewestOk(s')
  {
    hide Decode, Encode, Align8, Inv, Committed, Pending, FrameStarts, FrameAt, Aligned;
    InvHasShape(RingOf(s));
    InvHasShape(RingOf(s'));
    BetweenExtends(s.g, s.offRead, s'.offRead, s.offWriteCom, RingOf(s).offWriteInt);
    if s.writer.LoadedBoth? && s.writer.r != s.writer.w {
      StaysBehind(s.g, s.writer.r, s.offRead, s'.offRead, s.writer.w);
    }
  }
}
