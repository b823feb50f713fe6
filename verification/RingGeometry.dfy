/** Offsets of a ring and the regions frames occupy, without memory contents. */
module RingGeometry {
  import opened MachineWords
  import opened Wrappers

  /** offStart and offEnd of INTNETRINGBUF. */
  datatype Geometry = Geometry(start: int, end: int) {
    function Size(): int { end - start }
  }

  /** Every distance within the ring fits the signed offset of a header. */
  predicate GeometryOk(g: Geometry) {
    0 <= g.start < g.end <= 0x8000_0000
  }

  predicate AlignedRing(g: Geometry) {
    GeometryOk(g) && Aligned(g.start) && Aligned(g.end)
  }

  /** A header fits at `x`. */
  predicate InRing(g: Geometry, x: int) {
    g.start <= x && x + 8 <= g.end
  }

  /** How many bytes lie from `a` on before `b` is reached, going round the end of the ring. */
  function Dist(g: Geometry, a: int, b: int): int {
    if a <= b then b - a else g.end - a + b - g.start
  }

  /** A frame's place: header offset, payload offset and aligned payload capacity. */
  datatype Slot = Slot(hdr: int, pay: int, cap: int)

  /** The payload follows the header directly, or starts over at the beginning of the ring. */
  predicate SlotOk(g: Geometry, s: Slot) {
    && InRing(g, s.hdr)
    && 0 <= s.cap
    && ((s.pay == s.hdr + 8 && s.pay + s.cap <= g.end) || (s.pay == g.start && s.pay + s.cap <= s.hdr))
  }

  /** Bytes of the ring a frame uses up: header, aligned payload and, when split, the slack at the ring's end. */
  function Foot(g: Geometry, s: Slot): int {
    if s.pay == s.hdr + 8 then 8 + s.cap else g.end - s.hdr + s.cap
  }

  function Wrap(g: Geometry, x: int): int {
    if x >= g.end then g.start else x
  }

  /** Where the header after `s` lies. */
  function NextHeader(g: Geometry, s: Slot): int {
    Wrap(g, s.pay + s.cap)
  }

  /** Byte `x` belongs to the header or to the payload area of `s`. */
  predicate Occupies(s: Slot, x: int) {
    s.hdr <= x < s.hdr + 8 || s.pay <= x < s.pay + s.cap
  }

  /** The placement decision of intnetRingAllocateFrameInternal. */
  function Place(g: Geometry, w: int, r: int, cap: int): Option<Slot> {
    if r <= w then
      if g.end - w >= cap + 8 then Some(Slot(w, w + 8, cap))
      else if r - g.start > cap then Some(Slot(w, g.start, cap))
      else None
    else if r - w > cap + 8 then Some(Slot(w, w + 8, cap))
    else None
  }

  /** The one placement that uses up the last free byte: reader at the start, frame ending at the end. */
  predicate ExactFit(g: Geometry, w: int, r: int, cap: int) {
    r == g.start && w + 8 + cap == g.end
  }

  /** IntNetRingGetWritable. */
  function Writable(g: Geometry, w: int, r: int): int {
    if r <= w then g.end - w + r - g.start - 1 else r - w - 1
  }

  lemma DistAdd(g: Geometry, a: int, b: int, c: int)
    requires g.start <= a < g.end && g.start <= b < g.end && g.start <= c < g.end
    ensures 0 <= Dist(g, a, b) < g.Size()
    ensures Dist(g, a, c) == Dist(g, a, b) + Dist(g, b, c)
                             - if Dist(g, a, b) + Dist(g, b, c) < g.Size() then 0 else g.Size()
  {
  }

  /** A point between `a` and `b` is between `a` and any `c` that lies beyond `b`. */
  lemma BetweenExtends(g: Geometry, a: int, p: int, b: int, c: int)
    requires g.start <= a < g.end && g.start <= b < g.end && g.start <= c < g.end && g.start <= p < g.end
    requires Dist(g, a, b) == Dist(g, a, p) + Dist(g, p, b) && Dist(g, a, c) == Dist(g, a, b) + Dist(g, b, c)
    ensures Dist(g, a, c) == Dist(g, a, p) + Dist(g, p, c)
  {
  }

  /** A point that was behind `a` is behind any `b` further on. */
  lemma StaysBehind(g: Geometry, q: int, a: int, b: int, c: int)
    requires g.start <= a < g.end && g.start <= b < g.end && g.start <= c < g.end && g.start <= q < g.end
    requires Dist(g, q, c) == Dist(g, q, a) + Dist(g, a, c) && Dist(g, a, c) == Dist(g, a, b) + Dist(g, b, c)
    ensures Dist(g, q, c) == Dist(g, q, b) + Dist(g, b, c)
  {
  }

  /** Stepping over a frame brings the cursor closer to any goal that is not inside the frame. */
  lemma NextCloser(g: Geometry, s: Slot, b: int)
    requires GeometryOk(g) && SlotOk(g, s) && InRing(g, b) && InRing(g, NextHeader(g, s))
    ensures 8 <= Foot(g, s) <= g.Size()
    ensures Dist(g, s.hdr, NextHeader(g, s)) == if Foot(g, s) == g.Size() then 0 else Foot(g, s)
    ensures Foot(g, s) <= Dist(g, s.hdr, b)
            ==> Dist(g, NextHeader(g, s), b) == Dist(g, s.hdr, b) - Foot(g, s)
  {
  }

  /** In an aligned ring the next header is aligned and fits before the end. */
  lemma NextAligned(g: Geometry, s: Slot)
    requires AlignedRing(g) && SlotOk(g, s) && Aligned(s.hdr) && Aligned(s.cap)
    ensures Aligned(s.pay) && Aligned(NextHeader(g, s)) && InRing(g, NextHeader(g, s))
  {
  }

  /** The header after a place meets the reader exactly when the place takes all the space left. */
  lemma NextMeetsReader(g: Geometry, r: int, s: Slot)
    requires GeometryOk(g) && SlotOk(g, s) && InRing(g, r) && InRing(g, NextHeader(g, s))
    requires Dist(g, r, s.hdr) + Foot(g, s) <= g.Size()
    ensures NextHeader(g, s) == r <==> Dist(g, r, s.hdr) + Foot(g, s) == g.Size()
    ensures Dist(g, r, NextHeader(g, s)) == if NextHeader(g, s) == r then 0 else Dist(g, r, s.hdr) + Foot(g, s)
  {
  }

  /** The bytes of a slot lie in the ring, within its footprint as counted from any point before it. */
  lemma OccupiedWithinFootprint(g: Geometry, a: int, s: Slot, x: int)
    requires GeometryOk(g) && InRing(g, a) && SlotOk(g, s) && Occupies(s, x)
    requires Dist(g, a, s.hdr) + Foot(g, s) <= g.Size()
    ensures g.start <= x < g.end
    ensures Dist(g, a, s.hdr) <= Dist(g, a, x) < Dist(g, a, s.hdr) + Foot(g, s)
  {
  }

  /** A placement never takes more than the free space, and takes all of it exactly in the exact-fit corner. */
  lemma PlaceSound(g: Geometry, w: int, r: int, cap: int)
    requires GeometryOk(g) && InRing(g, w) && InRing(g, r) && 0 <= cap && Place(g, w, r, cap).Some?
    ensures var s := Place(g, w, r, cap).value;
            && SlotOk(g, s) && s.hdr == w && s.cap == cap
            && Dist(g, r, w) + Foot(g, s) <= g.Size()
            && (Dist(g, r, w) + Foot(g, s) == g.Size() <==> ExactFit(g, w, r, cap))
  {
  }

  /** The allocator overflows only when no contiguous place would leave a byte free. */
  lemma PlaceComplete(g: Geometry, w: int, r: int, cap: int)
    requires GeometryOk(g) && InRing(g, w) && InRing(g, r) && 0 <= cap
    ensures (Place(g, w, r, cap).Some? && !ExactFit(g, w, r, cap))
            <==> exists s :: SlotOk(g, s) && s.hdr == w && s.cap == cap && Dist(g, r, w) + Foot(g, s) < g.Size()
  {
  }

  /** A payload of `cap` bytes fits directly behind a header at the write offset. */
  predicate FitsBehind(g: Geometry, w: int, r: int, cap: int) {
    if r <= w then w + 8 + cap <= g.end else w + 8 + cap < r
  }

  /** It does not, and it fits at the start of the ring, in front of the reader. */
  predicate FitsAtStart(g: Geometry, w: int, r: int, cap: int) {
    !FitsBehind(g, w, r, cap) && r <= w && g.start + cap < r
  }

  /** Where the payload goes: behind the header if it fits there, otherwise to the start of the ring. */
  function PayloadAt(g: Geometry, w: int, r: int, cap: int): int {
    if FitsBehind(g, w, r, cap) then w + 8 else g.start
  }

  /** The placement in full: behind the header if it fits there, else at the start; and the offset that follows. */
  lemma PlaceInFull(g: Geometry, w: int, r: int, cap: int)
    requires GeometryOk(g) && InRing(g, w) && InRing(g, r) && 0 <= cap
    ensures Place(g, w, r, cap).Some? <==> FitsBehind(g, w, r, cap) || FitsAtStart(g, w, r, cap)
    ensures Place(g, w, r, cap).Some? ==>
              var slot := Place(g, w, r, cap).value;
              slot == Slot(w, PayloadAt(g, w, r, cap), cap) && SlotOk(g, slot)
  {
  }

  /**
   Of all contiguous places that leave a byte free the allocator takes the one that uses up least, which is the one
   directly behind the header wherever that one fits before the end of the ring.
   */
  lemma PlaceSmallest(g: Geometry, w: int, r: int, cap: int, t: Slot)
    requires GeometryOk(g) && InRing(g, w) && InRing(g, r) && 0 <= cap
    requires SlotOk(g, t) && t.hdr == w && t.cap == cap && Dist(g, r, w) + Foot(g, t) < g.Size()
    ensures Place(g, w, r, cap).Some? && Foot(g, Place(g, w, r, cap).value) <= Foot(g, t)
    ensures Place(g, w, r, cap) == Some(t)
            <==> t.pay == w + 8 || !FitsBehind(g, w, r, cap)
  {
  }
}
