# Internal-networking rings and thread-slot references

This project models three pieces of shared-memory bookkeeping and proves what their users rely on.

* **The internal-networking ring** (`include/VBox/intnetinline.h`, `include/VBox/intnet.h`): a ring of bytes with one writer and one
  reader, holding frames of variable length behind eight-byte headers. The writer reserves space, hands it out to be filled, and
  commits in order; a header may stand at the end of the ring with its payload at the start.
* **The scatter/gather readers** of the same file, and the function of the network switch that writes a gathered frame into a receive
  ring (`src/VBox/Devices/Network/SrvIntNetR0.cpp`).
* **The reference-counted thread slots** (`include/VBox/VBoxVideo3D.h`): objects shared by threads, destroyed by whoever drops the
  last reference, with a destructor that may use the same macros.

`dafny verify dfyconfig.toml` checks everything.

## Reading guide

`RingGeometry` has offsets and places without contents, `FrameWalk` the queue that a walk over headers finds in memory, `RingModel` the
operations as functions on the ring's value and the ring invariant `Inv`. `RingLaws`, `PaddingLaws`, `SendLaws`, `BatchLaws`, `SpaceLaws`
and `OffsetFormulas` say what the operations do to the queue; `RingRuns` says it for all sequences of operations. `RingBuffers` is the ring
structure as a class that updates offsets, counters and memory in place with the source's wrapping 32-bit arithmetic, each method proved
against the function of `RingModel`. `ConcurrentRing` is the same ring shared by two processes that interleave at every load and store,
with the invariant of full and not full rings; `ConcurrentRuns` has its runs as runs of a queue and exactly which steps lose frames,
`ConcurrentLosses` what becomes of the frames then and how an allocator avoids it, and `ConcurrentTransfers` what whole sends and receives
add up to when nothing interrupts them.
`InterfaceBuffer` puts two rings into one block, `ScatterGather` and `SwitchSend` fill them. `RingWitnesses` has inputs on which the ring
falls short. `TlsProtocol` interleaves threads at every access to an object, `TlsRuns` has whole runs and the discipline on slot exchanges, `TlsHistory` objects as
what has been done to them,
`TlsWitnesses` runs that go wrong without it; `TlsObjects` has the macros in place, and `TlsRefinement` connects the two.

Modelling decisions: header fields are stored little-endian; the end of a ring is at most 2 GiB from its structure, as the signed
32-bit frame offset needs; memory is sequentially consistent, and an aligned 16-bit field is stored at once. Preconditions are the assertions the source makes about its callers
(frame sizes of at least 12, commits in order and of a frame that is there, used size at most the allocated one).

## What the proofs found

* **Exact fit.** With the read offset at the start of the ring, a frame that ends exactly at the end makes the write offset equal the
  read offset (`include/VBox/intnetinline.h:421-425`), although the header comment promises a free byte (`include/VBox/intnet.h:41-43`).
  For a whole send nothing comes between, so the ring then reads as empty and all queued frames are lost with the new one; no other
  send does that (`SendAppendsUnlessExactFit`, `SecondFrameLosesFirst`). With a reader at work the full ring itself loses nothing. Two
  steps can: a commit that stores an offset equal to the read offset, after which the reader finds nothing, and a placement decided on
  the read offset of a full ring that reaches beyond what the reader has released since, which hands out bytes in use. At every moment
  the queue is intact as long as there has been neither, and not after the first (`LossExactly`, `RunLosesNothingExactly`, `OnlyFrameLost`).
  The commit's frames are gone for good unless the reader was in the middle of a frame; then it finishes that frame and finds the others
  again (`CommitLossIsFinalExactly`). The placement does no harm if the reader releases the bytes before they are written
  (`OverrunRecovers`). A writer that never takes an exact fit of the offsets it has loaded takes neither step (`AvoidingExactFitIsHarmless`).
* **Untrimmed length.** `IntNetRingCommitFrameEx` leaves the length field alone when used and allocated size round to the same multiple
  of eight (`include/VBox/intnetinline.h:611-619`): the receiver then gets up to seven bytes too many. `DeliveredExactlyWhenTrimmed` is the
  exact condition, `ThirteenOfSixteen` a case.
* **Segment not advanced.** `IntNetSgReadEx` restarts at the front of the segment it has just read the end of
  (`include/VBox/intnetinline.h:225-228`). `DeliversSliceExactly` is the exact condition, `CrossingExample` a case. A read of nothing at the very end of the list
  looks at the segment behind the last one unless an empty segment closes the list (`SeekInside`).
* **Weak sanity checks.** The last branch of the ring's sanity macro misses a condition (`SanityGap`, `SaneOutOfOrder`), and the one for the whole buffer
  computes both ends of a ring from its start (`include/VBox/intnet.h:168-171`), so it cannot hold of any buffer and is not followed here.
  A padding frame of size zero that ends the ring has its frame pointer at the very end; the walk handles it.
* **16-bit sizes.** Beyond 65535 bytes the allocator stores a truncated size and the one-call writer and allocate-then-commit part
  company (`WriteFrameRefinesSend`, `TruncatedSize`).
* **Empty rings.** `IntNetBufInit` accepts a size of zero, which leaves a ring whose offsets violate its own invariant (`IntNetBuf.Init`).
* **Slot exchange.** `VBoxTlsRefSetCurrent` puts the new object into the slot and releases the old one before it references the new one.
  If the new one's count drops to zero in between, its destructor can run twice (`ExchangeDestroysTwice`) or the slot can end up with a
  destroyed object (`OutgoingReleasesIncoming`). The macros' own assertions about the new count decide the first: counts and destructor
  calls stay right exactly as long as they hold (`StepKeepsExactly`, `RunKeepsExactly`). They do not decide the second: none fails in
  the run that spoils the slot (`OutgoingAsserts`). With destructors that leave slots alone, slots stay live exactly if no slot's object
  ever loses all its references (`SlotsLiveExactly`). `DisciplineSuffices` gives a discipline under which both hold.
* **Marking the dying.** `VBoxTlsRefMarkDestroy` on an object whose destructor has begun makes a second destruction possible if and only
  if the object still has references (`SecondDestructionExactly`, `MarkOnDyingDestroysTwice`).

## Model

| member | source | states |
|---|---|---|
| ConcurrentRuns.RunsAreFifo | include/VBox/intnetinline.h:404-625 | In every run of one writer and one reader without the two losing steps, interleaved at every load and store, the frames received are exactly the first of the frames committed, in commit order and byte for byte; no compare-and-exchange is ever lost, and every step is a step of a FIFO queue |
| ConcurrentRuns.RunLosesNothingExactly | include/VBox/intnetinline.h:404-625 | For every run: at all times the reader would find exactly the frames committed and not received, and no reserved place overlaps another frame, if and only if no commit stores the read offset and no placement decided on the read offset of a full ring reaches bytes still outstanding |
| ConcurrentRuns.LossExactly | include/VBox/intnetinline.h:413-425 | The same for each single step of every reachable state |
| ConcurrentRuns.CommitLoses | include/VBox/intnetinline.h:551-564 | Right after a commit that stores an offset equal to the read offset, the walk from the read offset no longer finds the frames committed |
| ConcurrentLosses.CommitLossIsFinalExactly | include/VBox/intnetinline.h:370-391 | After such a commit harmless steps can lead to a state in which nothing is missing if and only if the reader was in the middle of a frame at the commit |
| ConcurrentLosses.LeftEmpty | include/VBox/intnetinline.h:551-564 | If it was not, the ring is an ordinary empty ring, good but for the frames that only the record of what was sent still has |
| ConcurrentLosses.CopyingRecovers | include/VBox/intnetinline.h:370-391 | If it was, the reader by itself finishes its frame and the ring is good again with every frame in it |
| ConcurrentLosses.OverrunRecovers | include/VBox/intnetinline.h:413-425 | An overrun whose bytes the reader releases with its next store, before any is written, loses nothing |
| ConcurrentLosses.AvoidingExactFitIsHarmless | include/VBox/intnet.h:41-43 | Every run whose exchanges take no exact fit of the two offsets they have loaded has no losing step, and its ring is never full |
| ConcurrentRuns.OverrunOverlaps | include/VBox/intnetinline.h:413-479 | A placement that overruns hands out a byte of a committed or pending frame |
| ConcurrentRuns.OnlyFrameLost | include/VBox/intnetinline.h:421-425 | From an empty ring of 24 bytes a frame of 16 makes the ring full, still correct, and its commit loses it |
| ConcurrentRuns.StepRefinesFifo | include/VBox/intnet.h:38-47 | Except for the two losing steps every enabled step of either process keeps the invariant, in full rings too; committing enqueues a frame, and its padding if it was shortened, the read-offset store dequeues the oldest, everything else is invisible |
| ConcurrentRing.ExchangeKeeps | include/VBox/intnetinline.h:413-425 | Unless it overruns, a placement decided on a read offset loaded earlier is sound at the compare-and-exchange, exact fit or not, and the exchange never loses a race |
| ConcurrentRuns.AllocateRuns | include/VBox/intnetinline.h:404-486 | The loads, the exchange and the eight header bytes without interruption decide, write and move exactly as the sequential allocator |
| ConcurrentTransfers.SendRuns | include/VBox/intnetinline.h:404-567 | Allocation, one store for each byte of the data and the commit, without interruption, leave memory and offsets of the sequential send and record exactly a frame of the type asked for with the bytes given |
| ConcurrentTransfers.CommitExRuns | include/VBox/intnetinline.h:582-625 | The padding header byte by byte, the size field and the commit, without interruption, leave memory and offsets of the sequential shortened commit and record the used bytes and one padding frame |
| ConcurrentTransfers.TakesUp | include/VBox/intnetinline.h:292-299 | The two loads of a reader at rest, without interruption, leave it copying if and only if a frame is committed |
| ConcurrentTransfers.ReceiveRuns | include/VBox/intnetinline.h:292-391 | A reader at rest in a ring with a committed frame can load the offsets, the header, the payload and store the read offset, one after the other; it then has received exactly the oldest frame, and the read offset is where the sequential skip leaves it |
| ConcurrentRing.StoreSizeKeeps | include/VBox/intnetinline.h:611-619 | With the padding header in place, storing the size field divides the oldest pending place in two and disturbs neither the reader nor any other frame, in full rings too |
| ConcurrentRing.HeaderByteKeeps | include/VBox/intnetinline.h:430-433 | Each byte of a header under construction falls outside all committed and pending frames; the last one makes the frame pending, and the ring full if nothing is left |
| ConcurrentRing.FillByteKeeps | include/VBox/intnet.h:56-60 | Third parties may fill handed-out payloads at any time: no queued frame, no other header and no copy in progress changes |
| ConcurrentTransfers.FillByteStores | include/VBox/intnet.h:56-60 | Any byte of a place handed out can be stored at any time. It is then in memory at its place and every other byte is as before; the frame there keeps its type and size and has the byte in its data, unless the byte lies in the rounding behind them |
| ConcurrentTransfers.FillByteElsewhere | include/VBox/intnet.h:56-60 | Every other place handed out keeps its frame |
| ConcurrentRing.CommitEnqueues | include/VBox/intnetinline.h:541-625 | The oldest place handed out is found at the committed offset; storing a new offset other than the read offset queues the frame it holds, and its padding if it was shortened |
| ConcurrentRing.ReadByteKeeps | include/VBox/intnetinline.h:292-299 | What the reader has loaded so far stays a prefix of the oldest frame, header first, whatever the writer does meanwhile |
| ConcurrentRing.StoreReadDequeues | include/VBox/intnetinline.h:370-391 | Storing the read offset delivers the oldest frame, whole and unchanged, opens a full ring again, and leaves a stale copy of the offset on the safe side |
| ConcurrentRing.ReaderNotStuck | include/VBox/intnetinline.h:370-391 | A reader in the middle of a frame can always load its next byte or finish |
| ConcurrentRing.WriterNotStuck | include/VBox/intnetinline.h:541-548 | Whatever has been handed out starts with a well-formed header at the committed offset and can be committed |
| ConcurrentTransfers.NobodyWaits | include/VBox/intnet.h:38-47 | In every good state the writer can take its next step whatever the reader is doing, and the reader whatever the writer is doing |
| RingRuns.RunIsFifo | include/VBox/intnetinline.h:404-732 | Over any sequence of allocate, fill, commit, shortened commit, write and skip that avoids the exact fit: queued before plus sent equals received plus still queued; commits visit exactly the allocated places in allocation order, however many are outstanding |
| RingRuns.ApplyIsFifo | include/VBox/intnetinline.h:404-732 | Outside the exact fit each single operation keeps the invariant and is a queue operation both on delivered frames and on allocated places |
| BatchLaws.PermittedExactly | include/VBox/intnetinline.h:404-732 | In a valid ring an operation is permitted exactly as the assertions ask: frame sizes from 12 up, commits and skips of a frame that is there, a used size within the oldest pending frame, its GSO context included, the one-call write with nothing pending, stores within a pending payload |
| SendLaws.SendAppendsUnlessExactFit | include/VBox/intnetinline.h:404-567 | With nothing pending, a successful allocate, fill and commit appends exactly that frame if and only if it is not the exact fit; in the exact fit the ring reads as empty and every queued frame is lost |
| SendLaws.WriteFrameRefinesSend | include/VBox/intnetinline.h:638-732 | The one-call writer equals allocate, copy, commit in return code, offsets, bytes and counters, on success and overflow, if and only if the size fits the 16-bit field or nothing was written |
| BatchLaws.SendIsRun | include/VBox/intnetinline.h:404-567 | With nothing pending and outside the exact fit, allocating, storing the whole payload and committing as three operations of a run are the whole send, to every byte, offset and counter |
| RingWitnesses.SecondFrameLosesFirst | include/VBox/intnetinline.h:421-425 | In a ring of 48 bytes the second of two 16-byte sends is the exact fit and the first frame is lost with it |
| RingWitnesses.TruncatedSize | include/VBox/intnetinline.h:668 | A frame of 65536 bytes gets a size field of 0, and the two ways of sending it differ |
| RingLaws.AllocateKeeps | include/VBox/intnetinline.h:404-479 | Outside the exact fit an allocation keeps the invariant, adds its place behind the pending ones, and leaves the committed frames alone; its header leads back to the place |
| RingLaws.AllocationDisjoint | include/VBox/intnetinline.h:416-479 | Every byte handed out lies in the ring and belongs to no committed and no pending frame, even in the exact fit |
| RingLaws.FillKeeps | include/VBox/intnet.h:56-60 | Storing into a pending payload changes that frame's contents and nothing else |
| RingLaws.FilledFrame | include/VBox/intnetinline.h:320-336 | The frame stored into keeps its header and reads as the bytes now in its payload |
| RingLaws.CommitKeeps | include/VBox/intnetinline.h:541-567 | Committing moves exactly the oldest pending frame to the end of the reader's queue |
| RingLaws.SkipDequeues | include/VBox/intnetinline.h:370-391 | Skipping takes exactly the oldest frame off and brings the read offset at least eight bytes closer to the committed offset, for plain, split, end-touching and padding frames |
| RingGeometry.PlaceSound | include/VBox/intnetinline.h:414-479 | A placement is contiguous, starts at the write offset and never exceeds the free space; it takes all of it exactly in the exact fit |
| RingGeometry.PlaceComplete | include/VBox/intnetinline.h:414-485 | The allocator places a frame outside the exact fit if and only if some contiguous place at the write offset leaves a byte free |
| RingGeometry.PlaceSmallest | include/VBox/intnetinline.h:416-437 | Of all contiguous places at the write offset that leave a byte free the allocator takes one that uses up least; a frame is split if and only if it does not fit behind its header |
| RingGeometry.NextAligned | include/VBox/intnetinline.h:379-384 | After any well-formed frame the next header is aligned and fits before the end of the ring |
| FrameWalk.WalkStable | include/VBox/intnetinline.h:292-299 | A walk over headers depends on nothing but the bytes it walks over |
| FrameWalk.FootprintsFillDistance | include/VBox/intnetinline.h:308-315 | Headers, aligned payloads and the slack of split frames add up to the distance walked |
| FrameHeader.DecodeEncode | include/VBox/intnet.h:208-220 | A header read back from its memory image is the header written |
| FrameHeader.EncodeDecode | include/VBox/intnet.h:208-220 | Any eight bytes are the image of the header they are read as |
| FrameHeader.HeaderImage | include/VBox/intnet.h:208-220 | The eight bytes of a header: type, size and offset in this order, each with its low byte first, the offset in two's complement |
| RingModel.SanityGap | include/VBox/intnet.h:100-102 | The sanity macro plus "with the reader ahead of the committer it is ahead of the writer" is exactly the order of the three offsets |
| RingModel.SaneOutOfOrder | include/VBox/intnet.h:100-102 | The macro alone is weaker: offsets 16, 8 and 24 of a ring of 48 pass it although the writer has overtaken the reader |
| OffsetFormulas.FormulasAgree | include/VBox/intnetinline.h:379-382 | From the header of any well-formed frame, split or not, the 32-bit formulas of the reader, the committer and the allocator give the same offset, the mathematical one, not beyond the end |
| SpaceLaws.SpaceConserved | include/VBox/intnetinline.h:262-315 | Readable space is the footprint of the committed frames; committed plus pending footprints plus writable space plus one is the ring size |
| SpaceLaws.AllocationBound | include/VBox/intnetinline.h:262-269 | Twice the rounded size writable guarantees an allocation; a success implies rounded size plus 15 writable, except the exact fit, where it is rounded size plus 7 |
| SpaceLaws.AllocationBoundIsTight | include/VBox/intnetinline.h:262-269 | For every size there is an empty ring with one writable byte less that overflows |
| PaddingLaws.CommitExKeeps | include/VBox/intnetinline.h:582-625 | A shortened commit moves the committed offset exactly as a plain commit; it queues the frame at allocated length when the rounded sizes agree, otherwise the used bytes and one padding frame of the remaining size, possibly zero |
| PaddingLaws.DeliveredExactlyWhenTrimmed | include/VBox/intnetinline.h:611-619 | A consumer that skips padding receives exactly the used bytes if and only if the used size is the allocated one or rounds to less |
| RingWitnesses.ThirteenOfSixteen | include/VBox/intnetinline.h:611-619 | With 13 of 16 allocated bytes used, the consumer receives all 16 |
| PaddingLaws.OldestDivided | include/VBox/intnetinline.h:611-619 | Shortening the oldest pending frame before its commit turns its place into two and changes nothing else |
| PaddingLaws.PartsFillSlot | include/VBox/intnetinline.h:595-619 | The shortened frame and its padding are two well-formed places that fill the original one, split frames included |
| BatchLaws.CommitAll | include/VBox/intnetinline.h:541-567 | As many commits as allocations outstanding queue all of them in order and make both write offsets equal |
| BatchLaws.SkipMany | include/VBox/intnetinline.h:370-391 | Skipping n frames takes the n oldest off the queue |
| BatchLaws.SendGsoIsSend | include/VBox/intnetinline.h:516-528 | Allocating a GSO frame, filling and committing sends context and payload as one frame |
| BatchLaws.GsoRoundTrip | include/VBox/intnetinline.h:351-362 | When the reader reaches a GSO frame, behind any number of others, its header leads to the very context and payload sent, and the stored size is the payload plus eight |
| RingBuffers.RingBuffer.AllocateFrameInternal | include/VBox/intnetinline.h:404-486 | In place: it succeeds exactly if the frame fits behind the write offset or, when it does not, at the start in front of the reader; the header lies at the old write offset and says type, size and payload, the payload is behind it wherever it fits there, the write offset is behind the payload, no other byte is written; a failure only counts an overflow. The whole new ring is that of the allocation function |
| RingBuffers.RingBuffer.AllocateFrame | include/VBox/intnetinline.h:499-502 | The same for normal frames |
| RingBuffers.RingBuffer.AllocateGsoFrame | include/VBox/intnetinline.h:516-528 | The same for GSO frames: room for the context is added, the context is stored at the payload offset, and the pointer handed out lies behind it |
| RingBuffers.RingBuffer.CommitFrame | include/VBox/intnetinline.h:541-567 | The new ring is that of the commit function; one frame and the bytes of its data are counted; in a valid ring the oldest pending frame becomes the last committed one |
| RingBuffers.RingBuffer.CommitFrameEx | include/VBox/intnetinline.h:582-625 | The oldest pending frame leaves the pending ones; it is queued whole if rounding makes used and allocated size equal, otherwise cut to the used bytes, a GSO context included, and followed by padding for the rest; the used bytes and one frame are counted. The whole new ring is that of the shortened commit, and valid |
| RingBuffers.RingBuffer.WriteFrame | include/VBox/intnetinline.h:638-732 | It succeeds exactly if the frame fits behind the write offset or, when it does not, at the start in front of the reader; header and data are then where the allocator puts them, both write offsets behind them, the data and one frame counted, no other byte written; a failure only counts an overflow. The whole new ring is that of the one-call write |
| RingBuffers.RingBuffer.SkipFrame | include/VBox/intnetinline.h:370-391 | With wrapping 32-bit arithmetic and a signed offset: exactly the oldest frame leaves the queue, pending frames stay |
| RingBuffers.RingBuffer.ReadAndSkipFrame | include/VBox/intnetinline.h:745-774 | Zero and no change on an empty ring; otherwise the oldest frame's bytes are copied out, its size returned, exactly that frame leaves the queue, and pending frames stay |
| RingBuffers.RingBuffer.GetWritable | include/VBox/intnetinline.h:262-269 | What is left of the ring after committed and pending footprints and the byte kept free |
| RingBuffers.RingBuffer.GetReadable | include/VBox/intnetinline.h:308-315 | The total footprint of the committed frames |
| RingBuffers.RingBuffer.HasMoreToRead | include/VBox/intnetinline.h:278-283 | True exactly when a committed frame is there |
| RingBuffers.RingBuffer.GetNextFrameToRead | include/VBox/intnetinline.h:292-299 | None exactly when the queue is empty, otherwise the offset of the well-formed oldest frame |
| InterfaceBuffer.IntNetBuf.Init | include/VBox/intnetinline.h:787-817 | The data areas follow each other behind the structure, within the block; all offsets of a ring are at its start and its counters untouched; a ring is valid, and then empty, if and only if it was given room |
| InterfaceBuffer.OtherRingUnaffected | include/VBox/intnet.h:112-157 | Any sequence of operations on one ring, stored back into the block and found there again, leaves the other ring's invariant, queue, pending allocations and bytes as they were |
| InterfaceBuffer.RingStoredBack | include/VBox/intnet.h:112-157 | A ring stored into the block is read back from it unchanged, and no byte outside it is written |
| InterfaceBuffer.ApplyWithin | include/VBox/intnetinline.h:404-732 | No operation touches a byte outside its ring's data area |
| InterfaceBuffer.IntNetBuf.WriteToSend | include/VBox/intnetinline.h:638-732 | In the shared block: the send ring and the return code are those of the one-call write, and the receive ring's queue and pending frames are unchanged |
| SwitchSend.RingWriteFrame | src/VBox/Devices/Network/SrvIntNetR0.cpp:2556-2575 | Success appends exactly one frame, except that the exact fit empties the ring: of the type asked for, with the GSO context in front if there is one, then the new destination address or else the list's first six bytes, then the rest of the list; overflow queues nothing and only counts itself; nothing outside the data area is written |
| SwitchSend.FillFrame | src/VBox/Devices/Network/SrvIntNetR0.cpp:2566-2568 | Byte by byte, the allocated frame then holds the concatenated segments with the first six bytes replaced as asked, and no other byte of the ring is written |
| ScatterGather.SgRead | include/VBox/intnetinline.h:173-191 | Writes exactly the concatenation of the used segments |
| ScatterGather.FlatUpTo | include/VBox/intnetinline.h:173-191 | In the concatenation each segment comes right behind those before it, and the rest behind it |
| ScatterGather.SgReadEx | include/VBox/intnetinline.h:202-252 | Writes exactly what `Delivers` says; every access is to a used segment |
| ScatterGather.DeliversSliceExactly | include/VBox/intnetinline.h:202-252 | Given the segment sizes, a read is right for every contents if and only if it does not start inside a segment and cross its end |
| ScatterGather.DeliversSliceUnlessCrossing | include/VBox/intnetinline.h:214-252 | A read that starts on a boundary or stays in one segment delivers the slice of the concatenation |
| ScatterGather.CrossingByte | include/VBox/intnetinline.h:225-228 | In a crossing read the byte after the partial segment is that segment's first byte instead of the next segment's |
| ScatterGather.CrossingBytes | include/VBox/intnetinline.h:225-251 | Every byte of a crossing read: right up to the end of the partial segment, and from there on as many bytes too early as the segment is long |
| ScatterGather.CrossingExample | include/VBox/intnetinline.h:225-228 | Two bytes from offset 1 of the segments 1, 2 and 3 come out as 2, 1 instead of 2, 3 |
| ScatterGather.SeekInside | include/VBox/intnetinline.h:214-234 | The search stops inside the list if and only if the offset is before the end or an empty segment closes the list |
| ScatterGather.WholeReadAgrees | include/VBox/intnetinline.h:173-191 | Reading the whole list piecewise agrees with reading it at once, empty segments included |
| TlsProtocol.StepKeepsExactly | include/VBox/VBoxVideo3D.h:93-124 | Any step of any thread, destructor actions included, keeps every count equal to the owners' references plus what threads account for, never negative, with exactly one destructor call due while it is zero and none before, if and only if the macro's own assertion about the new count holds |
| TlsProtocol.AssertionFails | include/VBox/VBoxVideo3D.h:93-100 | A failed assertion means a negative count, or an object that has a reference and is about to be destroyed |
| TlsRuns.SlotsLiveExactly | include/VBox/VBoxVideo3D.h:113-124 | In a run that ends between macros, with no failed assertion, no destroyed object put in and destructors that leave slots alone, no slot ever holds a destroyed object if and only if no slot's object ever has a zero count before its destruction |
| TlsRuns.NeverStrandedStaysLive | include/VBox/VBoxVideo3D.h:113-124 | The same from right to left for any destructors, at every point of any run |
| TlsProtocol.SlotsStayLive | include/VBox/VBoxVideo3D.h:113-124 | Under the discipline no slot's object has a zero count, so no step destroys an object that a slot holds if no destroyed object is put in |
| TlsProtocol.QuietAccounting | include/VBox/VBoxVideo3D.h:113-124 | Between macros the count is the owners' references plus the slots pointing at the object; exactly the objects in the destroying state have been destroyed, once; all others have a reference |
| TlsRuns.RunKeepsExactly | include/VBox/VBoxVideo3D.h:85-124 | A run from an empty world keeps all of this throughout if and only if no assertion of a macro fails in it |
| TlsHistory.ObjectIsItsHistory | include/VBox/VBoxVideo3D.h:85-124 | At every point of every run from an empty world: owners hold one reference plus those added less those released since the initialisation, the count has those slots have taken less those they have dropped besides, the destructor has run as often as it was called, and the object is initialized until it is first marked or destroyed |
| TlsHistory.ExistsOnceInitialized | include/VBox/VBoxVideo3D.h:85-89 | An object exists exactly after its one initialisation, and nothing is done to it before |
| TlsRuns.DestructorRunsOnce | include/VBox/VBoxVideo3D.h:98-105 | In any run without a failed assertion the destructor of an object is called at most once, and then the count is zero |
| TlsRuns.ZeroIsDestroyed | include/VBox/VBoxVideo3D.h:98-105 | In any run without a failed assertion an object whose count was ever zero has been destroyed, once, by the time no macro is in progress |
| TlsRuns.DisciplineSuffices | include/VBox/VBoxVideo3D.h:113-124 | In every disciplined run no assertion fails, and no object is destroyed while a slot holds it unless it was put there destroyed |
| TlsProtocol.ReachableIsCounted | include/VBox/VBoxVideo3D.h:93-124 | An object that an owner, a slot or an exchange in progress can still reach has a positive count |
| TlsProtocol.DestructorDue | include/VBox/VBoxVideo3D.h:101-104 | When a destructor is about to be called the count is zero and no destructor of the object has run |
| TlsProtocol.AssertionsHold | include/VBox/VBoxVideo3D.h:93-100 | Under the discipline the assertions of the add and release macros never fail, destructors and slot exchanges included |
| TlsProtocol.InnerActionsGoOn | include/VBox/VBoxVideo3D.h:98-124 | A macro once begun can always go on |
| TlsRuns.FlatDiscipline | include/VBox/VBoxVideo3D.h:113-124 | If destructors leave slots alone, the exchange discipline is exactly that some owner holds the incoming object |
| TlsRuns.HoldingIncomingSuffices | include/VBox/VBoxVideo3D.h:113-124 | With such destructors, holding every incoming object makes every run disciplined and free of failed assertions |
| TlsWitnesses.ExchangeDestroysTwice | include/VBox/VBoxVideo3D.h:113-124 | Without the discipline the once-only theorem fails: a thread stores its slot, another releases the last reference before it is taken, and the destructor runs twice |
| TlsWitnesses.OutgoingReleasesIncoming | include/VBox/VBoxVideo3D.h:116-122 | Without the discipline slots do not stay live: an outgoing object's destructor that gives up the last reference to the incoming one leaves a destroyed object in the slot |
| TlsWitnesses.OutgoingAsserts | include/VBox/VBoxVideo3D.h:93-100 | In that run every assertion of a macro holds, and the slot's object has a zero count before its destruction |
| TlsObjects.DestroyedWhenFirstUnheld | include/VBox/VBoxVideo3D.h:93-109 | For any sequence of macros and a balanced destructor, provided no dying object with references is marked: the count is what owners hold, and the destructor has run, once, if and only if owners ever held none |
| TlsObjects.SecondDestructionExactly | include/VBox/VBoxVideo3D.h:101-109 | For every destructor: allowed macros can lead to a second destructor call if and only if some mark came on a dying object that still had references |
| TlsObjects.MarkOnDyingDestroysTwice | include/VBox/VBoxVideo3D.h:101-109 | Such a sequence: release, add, mark, release destroys twice for every balanced destructor |
| TlsObjects.UsesAddUp | include/VBox/VBoxVideo3D.h:101-104 | The destructor's own adds and releases never set off another destructor, whatever their order |
| TlsObjects.LastRelease | include/VBox/VBoxVideo3D.h:98-105 | The release of the last reference runs the destructor once and leaves what the destructor left over |
| TlsObjects.TlsObject.Init | include/VBox/VBoxVideo3D.h:85-89 | A new object has one reference, is functional and was never destroyed |
| TlsObjects.TlsObject.AddRef | include/VBox/VBoxVideo3D.h:93-96 | One more reference, nothing else changed, and the macro's assertion holds |
| TlsObjects.TlsObject.Release | include/VBox/VBoxVideo3D.h:98-105 | One reference less, and nothing else changed, unless it was the last of an object not yet dying: then the destructor has run once, the object is dying and has what the destructor left over. The macro's assertion holds, and the object is as the release function says |
| TlsObjects.TlsObject.Destructor | include/VBox/VBoxVideo3D.h:102-103 | The loop of the destructor's uses computes the function of those uses |
| TlsObjects.TlsObject.MarkDestroy | include/VBox/VBoxVideo3D.h:107-109 | Only the state changes, the object is no longer functional, and it may still be used exactly if it has references |
| TlsObjects.TlsSlot.SetCurrent | include/VBox/VBoxVideo3D.h:113-124 | Nothing changes for the same object; otherwise the slot is replaced, the old object is released and the new one gains a reference |
| TlsRefinement.ReleaseRuns | include/VBox/VBoxVideo3D.h:98-105 | The in-place release, of an owner's reference or a slot's, is the uninterrupted run of the atomic actions: same count, state and destructor calls |
| TlsRefinement.UsesRun | include/VBox/VBoxVideo3D.h:102-103 | A destructor's macros, run action by action, do what its uses add up to |
| TlsRefinement.InitRuns | include/VBox/VBoxVideo3D.h:85-89 | The initialisation action gives exactly the object that the in-place macro leaves |
| TlsRefinement.InitThenRelease | include/VBox/VBoxVideo3D.h:85-105 | Initialising and releasing an object without interruption ends with one destructor call and the object dying |
| TlsRefinement.AddRefRuns | include/VBox/VBoxVideo3D.h:93-96 | Whoever holds a reference as an owner or through its slot can add one, and then the count and the references held are one more |
| TlsRefinement.MarkRuns | include/VBox/VBoxVideo3D.h:107-109 | Any object that is not dying can be marked, which changes its state only |
| TlsRefinement.SetCurrentRuns | include/VBox/VBoxVideo3D.h:113-124 | The in-place exchange is the uninterrupted run of the atomic actions: nothing for the same object; otherwise the slot is replaced, the old object released with its destructor, the new one referenced, and no other object changed |

## Left out

- Hardware memory ordering of the unordered atomic reads: the two processes share sequentially consistent memory.
- Several racing producers: the ring is documented to have exactly one writer, so `VERR_WRONG_ORDER` is proved unreachable in the concurrent model and absent from the in-place one.
- Torn stores of the 16-bit size field and of the offsets: `ConcurrentRing` stores each aligned field at once, while frame and header bytes are stored one by one.
- Reading while poisoning is enabled (`INTNET_POISON_READ_FRAMES`), logging, profiling counters and the physical addresses of segments.
- The arrangement of the ring structures' own fields as bytes: offsets and counters are fields of the class, only frames and headers are bytes in memory.
- RingBuffers.RingBuffer.AllocateFrameInternal: sizes above 0xFFFFFFF8, whose rounding wraps to zero, are not modelled; sizes above 65535 are, with the truncated size field the source then stores. `size_t` is taken to be 64 bits wide: with 32 bits the rounded size plus the header would wrap for sizes above 0xFFFFFFF0.
- RingBuffers.RingBuffer.AllocateFrame: sizes above 0xFFFFFFF8, as for the internal allocator.
- RingBuffers.RingBuffer.AllocateGsoFrame: sizes that exceed 0xFFFFFFF8 with the context, as for the internal allocator.
- RingBuffers.RingBuffer.WriteFrame: sizes above 0xFFFFFFF8, as for the internal allocator.
- InterfaceBuffer.IntNetBuf.WriteToSend: sizes above 0xFFFFFFF8, as for the one-call write.
- RingRuns.RunIsFifo: whole operations one after the other keep clear of the exact fit altogether; what a full ring allows is proved for the interleaved steps in `ConcurrentRuns`.
- InterfaceBuffer.IntNetBuf.Init: blocks over 2 GiB are not modelled, because the signed frame offset cannot span them.
- ScatterGather.SgReadEx: a read of nothing at the end of a list that no empty segment closes is excluded, because the source then looks at a segment that is not used.
- SwitchSend.RingWriteFrame: frames over 65535 bytes are not modelled.
- TlsObjects.TlsObject.Destructor: the in-place destructor uses only the object it destroys; `TlsProtocol` has destructors that use any object and any slot.
- Wrap-around of the 32-bit reference count, reuse of an object's storage after its destruction, and the undefined state of an object before `VBoxTlsRefInit`.
- The thread-local storage interface, `VBOXTLSREFDATA_COPY` and `VBOXTLSREFDATA_EQUAL`: field-by-field copies and comparisons.
- Initialising temporary scatter/gather lists: straight assignments.
- Trunk ports, switch decisions and the other ring-0 entry points, whose code is not about the ring.
