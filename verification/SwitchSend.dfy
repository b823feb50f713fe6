/** intnetR0RingWriteFrame: how the switch puts a scatter/gather list into a receive ring. */
module SwitchSend {
  import opened MachineWords
  import opened Memory
  import opened Wrappers
  import opened FrameHeader
  import opened RingGeometry
  import opened FrameWalk
  import opened RingModel
  import opened RingLaws
  import opened SendLaws
  import opened BatchLaws
  import opened InterfaceBuffer
  import opened RingBuffers
  import opened ScatterGather

  const MAC_SIZE := 6

  /** The list's bytes with the destination address, the first six, replaced if a new one is given. */
  function Readdressed(flat: seq<byte>, mac: Option<seq<byte>>): seq<byte>
    requires mac.Some? ==> |mac.value| == MAC_SIZE <= |flat|
  {
    if mac.Some? then mac.value + flat[MAC_SIZE..] else flat
  }

  lemma ReaddressedBytes(flat: seq<byte>, mac: Option<seq<byte>>)
    requires mac.Some? ==> |mac.value| == MAC_SIZE <= |flat|
    ensures |Readdressed(flat, mac)| == |flat|
    ensures forall j {:trigger Readdressed(flat, mac)[j]} | 0 <= j < |flat| ::
              Readdressed(flat, mac)[j] == if mac.Some? && j < MAC_SIZE then mac.value[j] else flat[j]
  {
  }

  /** The frame the receiver gets to see. */
  function SentFrameOf(sg: Sg, gso: Option<seq<byte>>, mac: Option<seq<byte>>): Frame
    requires mac.Some? ==> |mac.value| == MAC_SIZE <= |Flat(sg.segs)|
  {
    if gso.Some? then Frame(TYPE_GSO, gso.value + Readdressed(Flat(sg.segs), mac))
    else Frame(TYPE_FRAME, Readdressed(Flat(sg.segs), mac))
  }

  /** The bytes the frame takes in the ring. */
  function FrameSize(sg: Sg, gso: Option<seq<byte>>): nat {
    if gso.Some? then sg.cbTotal + GSO_SIZE else sg.cbTotal
  }

  lemma PutOver(m: seq<byte>, at: int, a: seq<byte>, b: seq<byte>)
    requires 0 <= at && at + |a| <= |m| && |b| <= |a|
    ensures Put(Put(m, at, a), at, b) == Put(m, at, b + a[|b|..])
  {
  }

  lemma StoredBytes(m: seq<byte>, at: nat, flat: seq<byte>, mac: Option<seq<byte>>)
    requires (mac.Some? ==> |mac.value| == MAC_SIZE <= |flat|) && at + |flat| <= |m|
    ensures |Readdressed(flat, mac)| == |flat|
    ensures var r := Put(m, at, Readdressed(flat, mac));
            && (forall j | 0 <= j < |flat| :: r[at + j] == if mac.Some? && j < MAC_SIZE then mac.value[j] else flat[j])
            && (forall i | 0 <= i < |m| && !(at <= i < at + |flat|) :: r[i] == m[i])
  {
  }

  /** Copies the list into an allocated frame and readdresses it. */
  method FillFrame(ring: RingBuffer, sg: Sg, frame: nat, mac: Option<seq<byte>>)
    requires ring.InMemory() && ring.offStart <= frame && frame + sg.cbTotal <= ring.offEnd
    requires sg.segs != [] && |Flat(sg.segs)| == sg.cbTotal && (mac.Some? ==> |mac.value| == MAC_SIZE <= sg.cbTotal)
    modifies ring.mem
    ensures ring.State() == Fill(old(ring.State()), frame, Readdressed(Flat(sg.segs), mac))
    ensures forall j | 0 <= j < sg.cbTotal ::
              ring.View()[frame + j] == if mac.Some? && j < MAC_SIZE then mac.value[j] else Flat(sg.segs)[j]
    ensures forall i | 0 <= i < ring.offEnd && !(frame <= i < frame + sg.cbTotal) ::
              ring.View()[i] == old(ring.View())[i]
    ensures ring.OthersUntouched()
  {
    hide Put, Flat;
    ghost var m, flat := ring.mem[..], Flat(sg.segs);
    SgRead(sg, ring.mem, ring.base + frame);
    if mac.Some? {
      CopyInto(ring.mem, ring.base + frame, mac.value);
      PutOver(m, ring.base + frame, flat, mac.value);
    }
    ghost var bytes := Readdressed(flat, mac);
    ghost var m' := ring.mem[..];
    assert m' == Put(m, ring.base + frame, bytes);
    PutWithin(m, ring.base, ring.base + ring.offEnd, ring.base + frame, bytes);
    assert ring.View() == m'[ring.base..ring.base + ring.offEnd];
    assert old(ring.View()) == m[ring.base..ring.base + ring.offEnd];
    StoredBytes(old(ring.View()), frame, flat, mac);
    forall i | 0 <= i < ring.mem.Length && !(ring.base + ring.offStart <= i < ring.base + ring.offEnd)
      ensures ring.mem[i] == old(ring.mem[i])
    {
      assert ring.mem[i] == m'[i] == m[i];
    }
  }

  /** An allocated frame that has been filled can be committed. */
  lemma FilledIsReady(s: RingState, kind: u16, all: seq<byte>, slot: Slot, u: RingState)
    requires Shape(s) && IsValidFrameType(kind) && |all| < 0x1_0000
    requires Place(s.g, s.offWriteInt, s.offRead, Align8(|all|)) == Some(slot)
    requires SlotOk(s.g, slot) && u == Fill(Allocate(s, kind, |all|).0, slot.pay, all)
    ensures Shape(u) && u.g == s.g && slot.hdr == s.offWriteInt && FrameStarts(u.m, u.g, slot.hdr)
    ensures Send(s, kind, all) == (Commit(u, slot.hdr), true)
  {
    SendOffsets(s, kind, all, slot);
    hide Put, Align8, Decode, Encode, Place, ExactFit;
    var t := Allocate(s, kind, |all|).0;
    HeaderLeadsToSlot(s.m, t.m, s.g, kind, |all|, slot);
    HeaderSurvivesFill(t.m, s.g, all, slot);
  }

  /** Fills what is left of an allocated frame and commits it. */
  method FillAndCommit(ring: RingBuffer, sg: Sg, hdr: u32, frame: nat, mac: Option<seq<byte>>,
                       ghost s: RingState, ghost kind: u16, ghost prefix: seq<byte>, ghost slot: Slot)
    requires sg.segs != [] && |Flat(sg.segs)| == sg.cbTotal && (mac.Some? ==> |mac.value| == MAC_SIZE <= sg.cbTotal)
    requires Shape(s) && s.offWriteCom == s.offWriteInt && IsValidFrameType(kind)
    requires |prefix| + sg.cbTotal < 0x1_0000
    requires Place(s.g, s.offWriteInt, s.offRead, Align8(|prefix| + sg.cbTotal)) == Some(slot)
    requires SlotOk(s.g, slot) && slot.cap == Align8(|prefix| + sg.cbTotal)
    requires ring.InMemory() && ring.State() == Fill(Allocate(s, kind, |prefix| + sg.cbTotal).0, slot.pay, prefix)
    requires hdr == slot.hdr && frame == slot.pay + |prefix|
    modifies ring`offWriteCom, ring`cbStatWritten, ring`cStatFrames, ring.mem
    ensures ring.InMemory() && ring.State() == Send(s, kind, prefix + Readdressed(Flat(sg.segs), mac)).0
    ensures Send(s, kind, prefix + Readdressed(Flat(sg.segs), mac)).1
    ensures ring.OthersUntouched()
  {
    hide Inv, Put, Align8, Decode, Encode, Place, Allocate, Flat, Send, Commit;
    ghost var data := Readdressed(Flat(sg.segs), mac);
    AllocateShape(s, kind, |prefix| + sg.cbTotal, slot);
    ghost var reserved := Allocate(s, kind, |prefix| + sg.cbTotal).0;
    ghost var u := Fill(ring.State(), frame, data);
    FillTwice(reserved, slot.pay, prefix, data);
    FilledIsReady(s, kind, prefix + data, slot, u);
    hide SlotOk, Fill, Shape, Readdressed;
    FillFrame(ring, sg, frame, mac);
    assert ring.State() == u;
    ring.CommitFrame(hdr);
  }

  lemma AllocateShape(s: RingState, kind: u16, cb: nat, slot: Slot)
    requires Shape(s) && Place(s.g, s.offWriteInt, s.offRead, Align8(cb)) == Some(slot)
    ensures Allocate(s, kind, cb).0.g == s.g && |Allocate(s, kind, cb).0.m| == |s.m|
    ensures Allocate(s, kind, cb).0.offWriteCom == s.offWriteCom
  {
  }

  /** The allocation, with the list's GSO context if it has one. */
  method Reserve(ring: RingBuffer, sg: Sg, gso: Option<seq<byte>>)
    returns (rc: Status, hdr: Option<u32>, frame: Option<u32>)
    requires ring.Valid() && 12 <= sg.cbTotal && FrameSize(sg, gso) < 0x1_0000
    requires gso.Some? ==> |gso.value| == GSO_SIZE
    modifies ring`offWriteInt, ring`cOverflows, ring.mem
    ensures ring.InMemory()
    ensures var kind, prefix := if gso.Some? then TYPE_GSO else TYPE_FRAME, if gso.Some? then gso.value else [];
            var (t, place) := old(Allocate(ring.State(), kind, FrameSize(sg, gso)));
            && (rc == VInfSuccess <==> place.Some?)
            && (place.Some? ==> 0 <= place.value.pay && place.value.pay + |prefix| <= |t.m|
                                && ring.State() == Fill(t, place.value.pay, prefix)
                                && hdr.Some? && hdr.value == place.value.hdr
                                && frame.Some? && frame.value == place.value.pay + |prefix|)
            && (place.None? ==> rc == VErrBufferOverflow
                                && ring.State() == old(ring.State()).(cOverflows := old(ring.cOverflows) + 1))
    ensures ring.OthersUntouched()
  {
    ghost var s := ring.State();
    AllocatedInMemory(s, TYPE_FRAME, sg.cbTotal);
    hide *;
    if gso.None? {
      rc, hdr, frame := ring.AllocateFrame(sg.cbTotal);
      if rc == VInfSuccess {
        FillNothing(ring.State(), frame.value);
      }
    } else {
      rc, hdr, frame := ring.AllocateGsoFrame(sg.cbTotal, gso.value);
    }
  }

  lemma AllocatedInMemory(s: RingState, kind: u16, cb: nat)
    requires Inv(s)
    ensures var (t, place) := Allocate(s, kind, cb);
            && (place.Some? ==> 0 <= place.value.pay <= |t.m|)
            && (place.None? ==> t == s.(cOverflows := s.cOverflows + 1))
  {
  }

  lemma FillNothing(s: RingState, at: nat)
    requires at <= |s.m|
    ensures Fill(s, at, []) == s
  {
  }

  /**
   intnetR0RingWriteFrame. With nothing pending, success appends exactly the list's frame to what the receiver will
   read, with its GSO context in front and its destination replaced as asked, except that the exact fit leaves the
   ring reading as empty; on overflow nothing is queued or lost.
   */
  method RingWriteFrame(ring: RingBuffer, sg: Sg, gso: Option<seq<byte>>, mac: Option<seq<byte>>) returns (rc: Status)
    requires ring.Valid() && ring.offWriteCom == ring.offWriteInt
    requires sg.segs != [] && |Flat(sg.segs)| == sg.cbTotal && 12 <= sg.cbTotal && FrameSize(sg, gso) < 0x1_0000
    requires (gso.Some? ==> |gso.value| == GSO_SIZE) && (mac.Some? ==> |mac.value| == MAC_SIZE)
    modifies ring`offWriteInt, ring`offWriteCom, ring`cbStatWritten, ring`cStatFrames, ring`cOverflows, ring.mem
    ensures ring.Valid()
    ensures var s, t, cap := old(ring.State()), ring.State(), Align8(FrameSize(sg, gso));
            && (rc == VInfSuccess <==> Place(s.g, s.offWriteInt, s.offRead, cap).Some?)
            && (rc != VInfSuccess ==> rc == VErrBufferOverflow && Committed(t) == Committed(s)
                                      && t == s.(cOverflows := s.cOverflows + 1))
            && (rc == VInfSuccess && !ExactFit(s.g, s.offWriteInt, s.offRead, cap) ==>
                  Committed(t) == Committed(s) + [SentFrameOf(sg, gso, mac)])
            && (rc == VInfSuccess && ExactFit(s.g, s.offWriteInt, s.offRead, cap) ==> Committed(t) == [])
    ensures rc == VInfSuccess && Committed(ring.State()) != [] ==>
              var q, flat, off := Committed(ring.State()), Flat(sg.segs), if gso.Some? then GSO_SIZE else 0;
              && q[..|q| - 1] == old(Committed(ring.State()))
              && var f := q[|q| - 1];
              && f.kind == (if gso.Some? then TYPE_GSO else TYPE_FRAME)
              && |f.data| == off + |flat| && (gso.Some? ==> f.data[..GSO_SIZE] == gso.value)
              && f.data[off..off + MAC_SIZE] == (if mac.Some? then mac.value else flat[..MAC_SIZE])
              && f.data[off + MAC_SIZE..] == flat[MAC_SIZE..]
    ensures ring.OthersUntouched()
  {
    ghost var s := ring.State();
    ghost var prefix := if gso.Some? then gso.value else [];
    ghost var kind := if gso.Some? then TYPE_GSO else TYPE_FRAME;
    ghost var all := prefix + Readdressed(Flat(sg.segs), mac);
    ghost var place := Place(s.g, s.offWriteInt, s.offRead, Align8(FrameSize(sg, gso)));
    SizesAgree(sg, gso, mac, prefix, all);
    hide Inv, Committed, Pending, PendingFrames, Put, Align8, Decode, Encode, Place, ExactFit, Send;
    InvHasShape(s);
    PlaceInRing(s, FrameSize(sg, gso));
    hide *;
    var hdr, frame;
    rc, hdr, frame := Reserve(ring, sg, gso);
    if rc == VInfSuccess {
      label reserved:
      FillAndCommit(ring, sg, hdr.value, frame.value, mac, s, kind, prefix, place.value);
      assert ring.OthersUntouched@reserved();
      SentOutcome(s, ring.State(), sg, gso, mac, kind, all);
    } else {
      OverflowKeeps(s, ring.State());
    }
  }

  lemma SizesAgree(sg: Sg, gso: Option<seq<byte>>, mac: Option<seq<byte>>, prefix: seq<byte>, all: seq<byte>)
    requires |Flat(sg.segs)| == sg.cbTotal && (mac.Some? ==> |mac.value| == MAC_SIZE <= sg.cbTotal)
    requires (gso.Some? ==> |gso.value| == GSO_SIZE) && prefix == if gso.Some? then gso.value else []
    requires all == prefix + Readdressed(Flat(sg.segs), mac)
    ensures FrameSize(sg, gso) == |prefix| + sg.cbTotal == |all|
    ensures SentFrameOf(sg, gso, mac) == Frame(if gso.Some? then TYPE_GSO else TYPE_FRAME, all)
  {
  }

  lemma SentOutcome(s: RingState, t: RingState, sg: Sg, gso: Option<seq<byte>>, mac: Option<seq<byte>>, kind: u16,
                    all: seq<byte>)
    requires Inv(s) && s.offWriteCom == s.offWriteInt && IsValidFrameType(kind) && |all| < 0x1_0000
    requires Send(s, kind, all) == (t, true) && |Flat(sg.segs)| >= MAC_SIZE
    requires (gso.Some? ==> |gso.value| == GSO_SIZE) && (mac.Some? ==> |mac.value| == MAC_SIZE)
    requires SentFrameOf(sg, gso, mac) == Frame(kind, all)
    ensures Inv(t)
    ensures var exact := ExactFit(s.g, s.offWriteInt, s.offRead, Align8(|all|));
            Committed(t) == if exact then [] else Committed(s) + [SentFrameOf(sg, gso, mac)]
    ensures Committed(t) != [] ==>
              var q, flat, off := Committed(t), Flat(sg.segs), if gso.Some? then GSO_SIZE else 0;
              && q[..|q| - 1] == Committed(s)
              && var f := q[|q| - 1];
              && f.kind == (if gso.Some? then TYPE_GSO else TYPE_FRAME)
              && |f.data| == off + |flat| && (gso.Some? ==> f.data[..GSO_SIZE] == gso.value)
              && f.data[off..off + MAC_SIZE] == (if mac.Some? then mac.value else flat[..MAC_SIZE])
              && f.data[off + MAC_SIZE..] == flat[MAC_SIZE..]
  {
    hide *;
    SendAppendsUnlessExactFit(s, kind, all);
    if !ExactFit(s.g, s.offWriteInt, s.offRead, Align8(|all|)) {
      SentFrameParts(sg, gso, mac, Committed(s), Committed(t));
    }
  }

  /** The frame queued, part by part: context, destination address, everything behind it. */
  lemma SentFrameParts(sg: Sg, gso: Option<seq<byte>>, mac: Option<seq<byte>>, before: seq<Frame>, q: seq<Frame>)
    requires |Flat(sg.segs)| >= MAC_SIZE
    requires (gso.Some? ==> |gso.value| == GSO_SIZE) && (mac.Some? ==> |mac.value| == MAC_SIZE)
    requires q == before + [SentFrameOf(sg, gso, mac)]
    ensures var flat, off := Flat(sg.segs), if gso.Some? then GSO_SIZE else 0;
            && q[..|q| - 1] == before
            && var f := q[|q| - 1];
            && f.kind == (if gso.Some? then TYPE_GSO else TYPE_FRAME)
            && |f.data| == off + |flat| && (gso.Some? ==> f.data[..GSO_SIZE] == gso.value)
            && f.data[off..off + MAC_SIZE] == (if mac.Some? then mac.value else flat[..MAC_SIZE])
            && f.data[off + MAC_SIZE..] == flat[MAC_SIZE..]
  {
  }

  lemma OverflowKeeps(s: RingState, t: RingState)
    requires Inv(s) && t == s.(cOverflows := s.cOverflows + 1)
    ensures Inv(t) && Committed(t) == Committed(s)
  {
  }
}
