/** The queue of frames as memory holds it: headers walked from one offset of the ring to another. */
module FrameWalk {
  import opened MachineWords
  import opened FrameHeader
  import opened RingGeometry

  /** What a consumer gets to see of a frame. */
  datatype Frame = Frame(kind: u16, data: seq<byte>)

  predicate MemoryOk(m: seq<byte>, g: Geometry) {
    GeometryOk(g) && g.end <= |m|
  }

  function SlotAt(m: seq<byte>, at: int): Slot
    requires 0 <= at && at + HEADER_SIZE <= |m|
  {
    var h := ReadHeader(m, at);
    Slot(at, at + h.off, Align8(h.cb))
  }

  /** A well-formed frame starts at `at`. */
  predicate FrameStarts(m: seq<byte>, g: Geometry, at: int)
    requires MemoryOk(m, g) && InRing(g, at)
  {
    IsValidFrameType(ReadHeader(m, at).kind) && SlotOk(g, SlotAt(m, at))
  }

  function FrameAt(m: seq<byte>, g: Geometry, at: int): Frame
    requires MemoryOk(m, g) && InRing(g, at) && FrameStarts(m, g, at)
  {
    var h := ReadHeader(m, at);
    Frame(h.kind, m[at + h.off..at + h.off + h.cb])
  }

  lemma FrameFields(m: seq<byte>, g: Geometry, at: int)
    requires MemoryOk(m, g) && InRing(g, at) && FrameStarts(m, g, at)
    ensures FrameAt(m, g, at).kind == ReadHeader(m, at).kind && |FrameAt(m, g, at).data| == ReadHeader(m, at).cb
  {
  }

  /** The header after the frame at `at`, as the reader's skip finds it. */
  function NextAt(m: seq<byte>, g: Geometry, at: int): int
    requires MemoryOk(m, g) && InRing(g, at)
  {
    NextHeader(g, SlotAt(m, at))
  }

  /** The frame at `a` is well-formed and ends before or at `b`. */
  predicate StepsTowards(m: seq<byte>, g: Geometry, a: int, b: int)
    requires MemoryOk(m, g) && InRing(g, a) && InRing(g, b)
    ensures StepsTowards(m, g, a, b) ==> FrameStarts(m, g, a) && InRing(g, NextAt(m, g, a))
    ensures StepsTowards(m, g, a, b)
            ==> Dist(g, NextAt(m, g, a), b) == Dist(g, a, b) - Foot(g, SlotAt(m, a)) <= Dist(g, a, b) - 8
  {
    && FrameStarts(m, g, a)
    && var s := SlotAt(m, a);
    && InRing(g, NextHeader(g, s))
    && Foot(g, s) <= Dist(g, a, b)
  }

  /** Walking headers from `a` meets well-formed frames only and arrives at `b`. */
  predicate Linked(m: seq<byte>, g: Geometry, a: int, b: int)
    requires MemoryOk(m, g) && InRing(g, a) && InRing(g, b)
    decreases Dist(g, a, b)
  {
    a == b || (StepsTowards(m, g, a, b) && Linked(m, g, NextAt(m, g, a), b))
  }

  /** The places of the frames met on the walk. */
  function Slots(m: seq<byte>, g: Geometry, a: int, b: int): seq<Slot>
    requires MemoryOk(m, g) && InRing(g, a) && InRing(g, b) && Linked(m, g, a, b)
    decreases Dist(g, a, b)
  {
    if a == b then [] else [SlotAt(m, a)] + Slots(m, g, NextAt(m, g, a), b)
  }

  /** The frames met on the walk, oldest first. */
  function Queue(m: seq<byte>, g: Geometry, a: int, b: int): (q: seq<Frame>)
    requires MemoryOk(m, g) && InRing(g, a) && InRing(g, b) && Linked(m, g, a, b)
    ensures |q| == |Slots(m, g, a, b)|
    decreases Dist(g, a, b)
  {
    if a == b then [] else [FrameAt(m, g, a)] + Queue(m, g, NextAt(m, g, a), b)
  }

  function TotalFoot(g: Geometry, ss: seq<Slot>): int {
    if ss == [] then 0 else Foot(g, ss[0]) + TotalFoot(g, ss[1..])
  }

  /** Two memories hold the same bytes in the `n` bytes of the ring that follow `a`. */
  ghost predicate Agree(m: seq<byte>, m': seq<byte>, g: Geometry, a: int, n: int)
    requires g.end <= |m| && g.end <= |m'|
  {
    forall x | 0 <= g.start <= x < g.end && Dist(g, a, x) < n :: m[x] == m'[x]
  }

  lemma AgreeWithin(m: seq<byte>, m': seq<byte>, g: Geometry, a: int, n: int, a': int, n': int)
    requires MemoryOk(m, g) && MemoryOk(m', g) && InRing(g, a) && InRing(g, a')
    requires Agree(m, m', g, a, n) && Dist(g, a, a') + n' <= n <= g.Size()
    ensures Agree(m, m', g, a', n')
  {
  }

  /** A frame that lies within the agreeing bytes reads the same. */
  lemma FrameStable(m: seq<byte>, m': seq<byte>, g: Geometry, at: int, n: int)
    requires MemoryOk(m, g) && MemoryOk(m', g) && InRing(g, at) && FrameStarts(m, g, at)
    requires Agree(m, m', g, at, n) && Foot(g, SlotAt(m, at)) <= n
    ensures ReadHeader(m, at) == ReadHeader(m', at)
    ensures FrameStarts(m', g, at) && SlotAt(m', at) == SlotAt(m, at) && FrameAt(m', g, at) == FrameAt(m, g, at)
  {
    var s := SlotAt(m, at);
    forall x | Occupies(s, x)
      ensures g.start <= x < g.end && m[x] == m'[x]
    {
      OccupiedWithinFootprint(g, at, s, x);
    }
    assert m[at..at + HEADER_SIZE] == m'[at..at + HEADER_SIZE];
    var h := ReadHeader(m, at);
    assert forall x | s.pay <= x < s.pay + h.cb :: Occupies(s, x);
    assert m[s.pay..s.pay + h.cb] == m'[s.pay..s.pay + h.cb];
  }

  /** With the same header a frame takes the same place. */
  lemma SameHeader(m: seq<byte>, m': seq<byte>, g: Geometry, a: int, b: int)
    requires MemoryOk(m, g) && MemoryOk(m', g) && InRing(g, a) && InRing(g, b) && StepsTowards(m, g, a, b)
    requires m[a..a + HEADER_SIZE] == m'[a..a + HEADER_SIZE]
    ensures StepsTowards(m', g, a, b) && ReadHeader(m', a) == ReadHeader(m, a) && SlotAt(m', a) == SlotAt(m, a)
  {
  }

  /** A frame in front of a walk. */
  lemma WalkCons(m: seq<byte>, g: Geometry, a: int, b: int)
    requires MemoryOk(m, g) && InRing(g, a) && InRing(g, b) && StepsTowards(m, g, a, b)
    requires Linked(m, g, NextAt(m, g, a), b)
    ensures a != b && Linked(m, g, a, b)
    ensures Slots(m, g, a, b) == [SlotAt(m, a)] + Slots(m, g, NextAt(m, g, a), b)
    ensures Queue(m, g, a, b) == [FrameAt(m, g, a)] + Queue(m, g, NextAt(m, g, a), b)
  {
  }

  /** The first frame of a non-empty walk. */
  lemma WalkUncons(m: seq<byte>, g: Geometry, a: int, b: int)
    requires MemoryOk(m, g) && InRing(g, a) && InRing(g, b) && a != b && Linked(m, g, a, b)
    ensures StepsTowards(m, g, a, b) && Linked(m, g, NextAt(m, g, a), b)
    ensures Slots(m, g, a, b) == [SlotAt(m, a)] + Slots(m, g, NextAt(m, g, a), b)
    ensures Queue(m, g, a, b) == [FrameAt(m, g, a)] + Queue(m, g, NextAt(m, g, a), b)
  {
  }

  /** A walk depends on nothing but the bytes it walks over. */
  lemma {:induction false} WalkStable(m: seq<byte>, m': seq<byte>, g: Geometry, a: int, b: int)
    requires MemoryOk(m, g) && MemoryOk(m', g) && InRing(g, a) && InRing(g, b)
    requires Linked(m, g, a, b) && Agree(m, m', g, a, Dist(g, a, b))
    ensures Linked(m', g, a, b)
    ensures Slots(m', g, a, b) == Slots(m, g, a, b) && Queue(m', g, a, b) == Queue(m, g, a, b)
    decreases Dist(g, a, b)
  {
    if a != b {
      var n := NextAt(m, g, a);
      FrameStable(m, m', g, a, Dist(g, a, b));
      AgreeWithin(m, m', g, a, Dist(g, a, b), n, Dist(g, n, b));
      WalkStable(m, m', g, n, b);
    }
  }

  /** Walks that meet combine, as long as together they do not go round the ring. */
  lemma WalkJoins(m: seq<byte>, g: Geometry, a: int, b: int, c: int)
    requires MemoryOk(m, g) && InRing(g, a) && InRing(g, b) && InRing(g, c)
    requires Linked(m, g, a, b) && Linked(m, g, b, c) && Dist(g, a, c) == Dist(g, a, b) + Dist(g, b, c)
    ensures Linked(m, g, a, c)
    ensures Slots(m, g, a, c) == Slots(m, g, a, b) + Slots(m, g, b, c)
    ensures Queue(m, g, a, c) == Queue(m, g, a, b) + Queue(m, g, b, c)
  {
    LinkedJoins(m, g, a, b, c);
    SequencesJoin(m, g, a, b, c);
  }

  lemma {:induction false} LinkedJoins(m: seq<byte>, g: Geometry, a: int, b: int, c: int)
    requires MemoryOk(m, g) && InRing(g, a) && InRing(g, b) && InRing(g, c)
    requires Linked(m, g, a, b) && Linked(m, g, b, c) && Dist(g, a, c) == Dist(g, a, b) + Dist(g, b, c)
    ensures Linked(m, g, a, c)
    decreases Dist(g, a, b)
  {
    if a != b {
      LinkedJoins(m, g, NextAt(m, g, a), b, c);
    }
  }

  lemma {:induction false} SequencesJoin(m: seq<byte>, g: Geometry, a: int, b: int, c: int)
    requires MemoryOk(m, g) && InRing(g, a) && InRing(g, b) && InRing(g, c)
    requires Linked(m, g, a, b) && Linked(m, g, b, c) && Linked(m, g, a, c)
    requires Dist(g, a, c) == Dist(g, a, b) + Dist(g, b, c)
    ensures Slots(m, g, a, c) == Slots(m, g, a, b) + Slots(m, g, b, c)
    ensures Queue(m, g, a, c) == Queue(m, g, a, b) + Queue(m, g, b, c)
    decreases Dist(g, a, b)
  {
    hide Decode, Foot, SlotAt, FrameAt;
    if a != b {
      var n := NextAt(m, g, a);
      assert Dist(g, n, c) == Dist(g, n, b) + Dist(g, b, c) by {
        assert StepsTowards(m, g, a, c);
      }
      SequencesJoin(m, g, n, b, c);
    }
  }

  /** The walk over a single frame. */
  lemma WalkOne(m: seq<byte>, g: Geometry, a: int)
    requires MemoryOk(m, g) && InRing(g, a) && FrameStarts(m, g, a) && InRing(g, NextAt(m, g, a))
    requires Foot(g, SlotAt(m, a)) < g.Size()
    ensures var n := NextAt(m, g, a);
            && a != n && Linked(m, g, a, n)
            && Slots(m, g, a, n) == [SlotAt(m, a)] && Queue(m, g, a, n) == [FrameAt(m, g, a)]
  {
  }

  /** The footprints met on a walk add up to the distance walked. */
  lemma {:induction false} FootprintsFillDistance(m: seq<byte>, g: Geometry, a: int, b: int)
    requires MemoryOk(m, g) && InRing(g, a) && InRing(g, b) && Linked(m, g, a, b)
    ensures TotalFoot(g, Slots(m, g, a, b)) == Dist(g, a, b)
    decreases Dist(g, a, b)
  {
    if a != b {
      FootprintsFillDistance(m, g, NextAt(m, g, a), b);
    }
  }

  /** The walk passes the header of every slot it meets. */
  lemma {:induction false} WalkReaches(m: seq<byte>, g: Geometry, a: int, b: int, k: nat)
    requires MemoryOk(m, g) && InRing(g, a) && InRing(g, b) && Linked(m, g, a, b)
    requires k < |Slots(m, g, a, b)|
    ensures var h := Slots(m, g, a, b)[k].hdr;
            && InRing(g, h) && StepsTowards(m, g, h, b) && SlotAt(m, h) == Slots(m, g, a, b)[k]
            && Dist(g, a, h) + Dist(g, h, b) == Dist(g, a, b)
            && Linked(m, g, a, h) && Linked(m, g, h, b) && |Slots(m, g, a, h)| == k
    decreases Dist(g, a, b)
  {
    hide Decode;
    if k > 0 {
      var n := NextAt(m, g, a);
      var h := Slots(m, g, a, b)[k].hdr;
      assert h == Slots(m, g, n, b)[k - 1].hdr;
      WalkReaches(m, g, n, b, k - 1);
      assert StepsTowards(m, g, a, h) by {
        DistAdd(g, a, h, b);
      }
    }
  }

  /** The `k`-th frame of a walk divides it into two walks. */
  lemma WalkCut(m: seq<byte>, g: Geometry, a: int, b: int, k: nat)
    requires MemoryOk(m, g) && InRing(g, a) && InRing(g, b) && Linked(m, g, a, b)
    requires k < |Slots(m, g, a, b)|
    ensures var ss := Slots(m, g, a, b);
            var h := ss[k].hdr;
            && InRing(g, h) && StepsTowards(m, g, h, b) && SlotAt(m, h) == ss[k]
            && Dist(g, a, h) + Dist(g, h, b) == Dist(g, a, b)
            && Linked(m, g, a, h) && Linked(m, g, h, b)
            && Slots(m, g, a, h) == ss[..k] && Slots(m, g, h, b) == ss[k..]
    ensures var h := Slots(m, g, a, b)[k].hdr;
            && Queue(m, g, a, h) == Queue(m, g, a, b)[..k] && Queue(m, g, h, b) == Queue(m, g, a, b)[k..]
            && Queue(m, g, a, b)[k] == FrameAt(m, g, h)
  {
    var h := Slots(m, g, a, b)[k].hdr;
    WalkReaches(m, g, a, b, k);
    WalkJoins(m, g, a, h, b);
  }

  /** A walk that goes beyond the end of the ring meets a place that occupies the ring's first byte. */
  lemma {:induction false} WalkCoversStart(m: seq<byte>, g: Geometry, a: int, b: int) returns (k: nat)
    requires MemoryOk(m, g) && InRing(g, a) && InRing(g, b) && Linked(m, g, a, b) && g.start < b < a
    ensures k < |Slots(m, g, a, b)| && Occupies(Slots(m, g, a, b)[k], g.start)
    decreases Dist(g, a, b)
  {
    var n := NextAt(m, g, a);
    if Occupies(SlotAt(m, a), g.start) {
      k := 0;
    } else if n == g.start {
      k := 1;
    } else {
      k := WalkCoversStart(m, g, n, b);
      k := k + 1;
    }
  }

  /** Bytes written only inside one slot leave the bytes before the slot alone. */
  lemma WriteLeavesBefore(m: seq<byte>, m': seq<byte>, g: Geometry, a: int, s: Slot)
    requires MemoryOk(m, g) && MemoryOk(m', g) && InRing(g, a) && SlotOk(g, s)
    requires Dist(g, a, s.hdr) + Foot(g, s) <= g.Size()
    requires forall x | g.start <= x < g.end && m[x] != m'[x] :: Occupies(s, x)
    ensures Agree(m, m', g, a, Dist(g, a, s.hdr))
  {
  }

  /** Bytes written only inside one slot leave the bytes after the slot alone. */
  lemma WriteLeavesAfter(m: seq<byte>, m': seq<byte>, g: Geometry, s: Slot, n: int)
    requires MemoryOk(m, g) && MemoryOk(m', g) && SlotOk(g, s) && InRing(g, NextHeader(g, s))
    requires Foot(g, s) + n <= g.Size()
    requires forall x | g.start <= x < g.end && m[x] != m'[x] :: Occupies(s, x)
    ensures Agree(m, m', g, NextHeader(g, s), n)
  {
  }

  /** Changing payload bytes of the `k`-th frame of a walk changes no place and no other frame. */
  lemma PayloadChange(m: seq<byte>, m': seq<byte>, g: Geometry, a: int, b: int, k: nat)
    requires MemoryOk(m, g) && MemoryOk(m', g) && InRing(g, a) && InRing(g, b) && Linked(m, g, a, b)
    requires k < |Slots(m, g, a, b)|
    requires var s := Slots(m, g, a, b)[k];
             forall x | g.start <= x < g.end && m[x] != m'[x] :: s.pay <= x < s.pay + s.cap
    ensures Linked(m', g, a, b) && Slots(m', g, a, b) == Slots(m, g, a, b)
    ensures forall i | 0 <= i < |Queue(m, g, a, b)| && i != k :: Queue(m', g, a, b)[i] == Queue(m, g, a, b)[i]
  {
    hide Decode, Linked, Slots, Queue, FrameAt;
    var slot := Slots(m, g, a, b)[k];
    var h := slot.hdr;
    WalkCut(m, g, a, b, k);
    assert Linked(m', g, a, h) && Slots(m', g, a, h) == Slots(m, g, a, h)
        && Queue(m', g, a, h) == Queue(m, g, a, h) by {
      DistAdd(g, a, b, b);
      WriteLeavesBefore(m, m', g, a, slot);
      WalkStable(m, m', g, a, h);
    }
    FirstPayloadChange(m, m', g, h, b);
    WalkJoins(m', g, a, h, b);
    assert Queue(m, g, h, b)[1..] == Queue(m', g, h, b)[1..];
  }

  lemma FirstPayloadChange(m: seq<byte>, m': seq<byte>, g: Geometry, h: int, b: int)
    requires MemoryOk(m, g) && MemoryOk(m', g) && InRing(g, h) && InRing(g, b) && h != b && Linked(m, g, h, b)
    requires var s := SlotAt(m, h);
             forall x | g.start <= x < g.end && m[x] != m'[x] :: s.pay <= x < s.pay + s.cap
    ensures FrameStarts(m', g, h) && ReadHeader(m', h) == ReadHeader(m, h)
    ensures Linked(m', g, h, b) && Slots(m', g, h, b) == Slots(m, g, h, b)
    ensures Queue(m', g, h, b) == [FrameAt(m', g, h)] + Queue(m, g, h, b)[1..]
  {
    hide Decode;
    var n := NextAt(m, g, h);
    assert m[h..h + HEADER_SIZE] == m'[h..h + HEADER_SIZE];
    SameHeader(m, m', g, h, b);
    WriteLeavesAfter(m, m', g, SlotAt(m, h), Dist(g, n, b));
    WalkStable(m, m', g, n, b);
    WalkCons(m', g, h, b);
  }
}
