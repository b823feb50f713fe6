/** Reading scatter/gather lists into flat buffers. */
module ScatterGather {
  import opened MachineWords
  import opened Memory

  /** INTNETSG: the used segments' bytes and the total the owner claims. */
  datatype Sg = Sg(cbTotal: nat, segs: seq<seq<byte>>)

  /** The list as one flat byte string. */
  function Flat(segs: seq<seq<byte>>): seq<byte> {
    if segs == [] then [] else segs[0] + Flat(segs[1..])
  }

  lemma {:induction false} FlatJoins(a: seq<seq<byte>>, b: seq<seq<byte>>)
    ensures Flat(a + b) == Flat(a) + Flat(b)
  {
    if a == [] {
      assert a + b == b;
    } else {
      assert (a + b)[1..] == a[1..] + b;
      FlatJoins(a[1..], b);
    }
  }

  lemma CutAt<T>(s: seq<T>, i: nat)
    requires i < |s|
    ensures s == s[..i + 1] + s[i + 1..] && s[..i + 1] == s[..i] + [s[i]]
  {
  }

  lemma FlatOne(seg: seq<byte>)
    ensures Flat([seg]) == seg
  {
  }

  lemma FlatUpTo(segs: seq<seq<byte>>, i: nat)
    requires i < |segs|
    ensures Flat(segs[..i + 1]) == Flat(segs[..i]) + segs[i]
    ensures Flat(segs) == Flat(segs[..i]) + segs[i] + Flat(segs[i + 1..])
  {
    hide Flat;
    CutAt(segs, i);
    FlatOne(segs[i]);
    FlatJoins(segs[..i], [segs[i]]);
    FlatJoins(segs[..i + 1], segs[i + 1..]);
  }

  /** The bytes before segment `i`. */
  ghost function FrontOf(segs: seq<seq<byte>>, i: nat): seq<byte>
    requires i <= |segs|
  {
    Flat(segs[..i])
  }

  lemma FrontBegins(segs: seq<seq<byte>>)
    requires segs != []
    ensures FrontOf(segs, 1) == segs[0] && |segs[0]| <= |Flat(segs)|
  {
    FlatUpTo(segs, 0);
    assert segs[..0] == [];
  }

  lemma FrontGrows(segs: seq<seq<byte>>, i: nat)
    requires i < |segs|
    ensures FrontOf(segs, i + 1) == FrontOf(segs, i) + segs[i] && |FrontOf(segs, i + 1)| <= |Flat(segs)|
  {
    FlatUpTo(segs, i);
  }

  lemma FrontEnds(segs: seq<seq<byte>>)
    ensures FrontOf(segs, |segs|) == Flat(segs)
  {
    assert segs[..|segs|] == segs;
  }

  /** The buffer holds what it held before, with `done` copied over it from `base` on. */
  ghost predicate Copied(buf: array<byte>, base: nat, before: seq<byte>, done: seq<byte>)
    reads buf
  {
    |before| == buf.Length && base + |done| <= buf.Length && buf[..] == Put(before, base, done)
  }

  /** Copies a chunk behind what has been copied so far. */
  method Append(buf: array<byte>, at: nat, chunk: seq<byte>, ghost base: nat, ghost before: seq<byte>,
      ghost done: seq<byte>)
    requires Copied(buf, base, before, done) && at == base + |done| && at + |chunk| <= buf.Length
    modifies buf
    ensures Copied(buf, base, before, done + chunk)
  {
    PutAdjacent(before, base, done, chunk);
    hide Put;
    CopyInto(buf, at, chunk);
  }

  lemma PutNothing(m: seq<byte>, at: nat)
    requires at <= |m|
    ensures Put(m, at, []) == m
  {
  }

  /** IntNetSgRead into the `cbTotal` bytes from `at` on; the segments do not exceed that total. */
  method SgRead(sg: Sg, buf: array<byte>, at: nat)
    requires sg.segs != [] && |Flat(sg.segs)| <= sg.cbTotal && at + sg.cbTotal <= buf.Length
    modifies buf
    ensures buf[..] == Put(old(buf[..]), at, Flat(sg.segs))
  {
    ghost var before := buf[..];
    NothingCopied(buf, at);
    FrontBegins(sg.segs);
    hide *;
    NothingBefore(sg.segs[0]);
    Append(buf, at, sg.segs[0], at, before, []);
    ReadRest(sg.segs, buf, at, before);
    AllCopied(sg.segs, buf, at, before);
  }

  lemma NothingCopied(buf: array<byte>, at: nat)
    requires at <= buf.Length
    ensures Copied(buf, at, buf[..], [])
  {
  }

  lemma AllCopied(segs: seq<seq<byte>>, buf: array<byte>, at: nat, before: seq<byte>)
    requires Copied(buf, at, before, FrontOf(segs, |segs|))
    ensures at + |Flat(segs)| <= |before| && buf[..] == Put(before, at, Flat(segs))
  {
    FrontEnds(segs);
  }

  /** The loop over the segments after the first. */
  method ReadRest(segs: seq<seq<byte>>, buf: array<byte>, at: nat, ghost before: seq<byte>)
    requires segs != [] && at + |Flat(segs)| <= buf.Length && Copied(buf, at, before, FrontOf(segs, 1))
    modifies buf
    ensures Copied(buf, at, before, FrontOf(segs, |segs|))
  {
    hide Flat, Put, FrontOf, Copied;
    FrontBegins(segs);
    var pbDst := at + |segs[0]|;
    var iSeg := 1;
    while iSeg < |segs|
      invariant 1 <= iSeg <= |segs| && pbDst == at + |FrontOf(segs, iSeg)|
      invariant Copied(buf, at, before, FrontOf(segs, iSeg))
    {
      FrontGrows(segs, iSeg);
      Append(buf, pbDst, segs[iSeg], at, before, FrontOf(segs, iSeg));
      pbDst := pbDst + |segs[iSeg]|;
      iSeg := iSeg + 1;
    }
  }

  /** The segment and the offset in it at which the search loop of IntNetSgReadEx stops. */
  function Seek(segs: seq<seq<byte>>, off: nat): (nat, nat) {
    if off == 0 || segs == [] || off < |segs[0]| then (0, off)
    else
      var (k, o) := Seek(segs[1..], off - |segs[0]|);
      (k + 1, o)
  }

  lemma {:induction false} LastOfEmpty(segs: seq<seq<byte>>)
    ensures segs != [] && Flat(segs) == [] ==> segs[|segs| - 1] == []
  {
    if segs != [] {
      LastOfEmpty(segs[1..]);
    }
  }

  /** The loop stops inside the list exactly when the offset is before its end or an empty segment closes it. */
  lemma {:induction false} SeekInside(segs: seq<seq<byte>>, off: nat)
    requires off <= |Flat(segs)|
    ensures var (k, o) := Seek(segs, off);
            && 0 <= k <= |segs| && (k < |segs| <==> segs != [] && (off < |Flat(segs)| || segs[|segs| - 1] == []))
            && (o > 0 ==> k < |segs| && o < |segs[k]|)
            && off == |Flat(segs[..k])| + o
    decreases segs
  {
    LastOfEmpty(segs);
    if off == 0 || segs == [] || off < |segs[0]| {
      assert segs[..0] == [];
    } else {
      SeekInside(segs[1..], off - |segs[0]|);
      var (k, o) := Seek(segs[1..], off - |segs[0]|);
      assert segs[..k + 1][1..] == segs[1..][..k];
    }
  }

  lemma FlatHead(segs: seq<seq<byte>>, k: nat)
    requires k < |segs|
    ensures Flat(segs[k..]) == segs[k] + Flat(segs[k + 1..])
  {
  }

  lemma FlatFrom(segs: seq<seq<byte>>, k: nat)
    requires k <= |segs|
    ensures Flat(segs) == Flat(segs[..k]) + Flat(segs[k..])
    ensures k < |segs| ==> Flat(segs[k..]) == segs[k] + Flat(segs[k + 1..])
  {
    hide Flat;
    SplitAt(segs, k);
    FlatJoins(segs[..k], segs[k..]);
    if k < |segs| {
      FlatHead(segs, k);
    }
  }

  lemma SplitAt<T>(s: seq<T>, i: nat)
    requires i <= |s|
    ensures s == s[..i] + s[i..]
  {
  }

  /** What the source asserts, and that the search stops at a used segment. */
  predicate Readable(segs: seq<seq<byte>>, off: nat, n: nat) {
    && off + n <= |Flat(segs)|
    && segs != [] && (off < |Flat(segs)| || segs[|segs| - 1] == [])
  }

  /** The read starts inside a segment and goes on beyond its end. */
  predicate Crosses(segs: seq<seq<byte>>, off: nat, n: nat)
    requires Readable(segs, off, n)
  {
    SeekInside(segs, off);
    var (k, o) := Seek(segs, off);
    o > 0 && n > |segs[k]| - o
  }

  /** From the segment where the search stops there are enough bytes. */
  lemma ReadFits(segs: seq<seq<byte>>, off: nat, n: nat, k: nat, o: nat)
    requires Readable(segs, off, n) && Seek(segs, off) == (k, o)
    ensures k < |segs| && (o > 0 ==> o < |segs[k]|)
    ensures |segs[k]| <= |Flat(segs[k..])| && o + n <= |Flat(segs[k..])|
  {
    SeekInside(segs, off);
    FlatFrom(segs, k);
    hide Flat, Seek;
  }

  /** What IntNetSgReadEx delivers: after a partial segment it starts over at the front of that same segment. */
  function Delivers(segs: seq<seq<byte>>, off: nat, n: nat): (r: seq<byte>)
    requires Readable(segs, off, n)
    ensures |r| == n
  {
    var (k, o) := Seek(segs, off);
    ReadFits(segs, off, n, k, o);
    if o > 0 && n > |segs[k]| - o then segs[k][o..] + Flat(segs[k..])[..n - (|segs[k]| - o)]
    else if o > 0 then segs[k][o..o + n]
    else Flat(segs[k..])[..n]
  }

  /** Where a search that has come to segment `i` with `off` bytes still to skip will stop. */
  ghost function SeekAt(segs: seq<seq<byte>>, i: nat, off: nat): (nat, nat)
    requires i <= |segs|
  {
    var (k, o) := Seek(segs[i..], off);
    (i + k, o)
  }

  /** One round of the search loop. */
  lemma SeekStep(segs: seq<seq<byte>>, i: nat, off: nat, k: nat, o: nat)
    requires i <= k < |segs| && off > 0 && SeekAt(segs, i, off) == (k, o)
    ensures if off < |segs[i]| then k == i && o == off
            else i < k && SeekAt(segs, i + 1, off - |segs[i]|) == (k, o)
  {
    assert segs[i..][1..] == segs[i + 1..];
    if off >= |segs[i]| {
      assert Seek(segs[i..], off).0 == Seek(segs[i + 1..], off - |segs[i]|).0 + 1;
    }
  }

  lemma SeekEnds(segs: seq<seq<byte>>, i: nat)
    requires i <= |segs|
    ensures SeekAt(segs, i, 0) == (i, 0)
  {
  }

  lemma SeekBegins(segs: seq<seq<byte>>, off: nat)
    ensures SeekAt(segs, 0, off) == Seek(segs, off)
  {
  }

  /** The bytes from segment `k` on. */
  ghost function RestOf(segs: seq<seq<byte>>, k: nat): seq<byte>
    requires k <= |segs|
  {
    Flat(segs[k..])
  }

  /** The three ways a read can go on from the segment where the search stopped. */
  lemma DeliversFrom(segs: seq<seq<byte>>, off: nat, n: nat, k: nat, o: nat)
    requires Readable(segs, off, n) && Seek(segs, off) == (k, o)
    ensures k < |segs| && (o > 0 ==> o < |segs[k]|)
    ensures var rest := RestOf(segs, k);
            if o > 0 && n > |segs[k]| - o
            then n - (|segs[k]| - o) <= |rest| && Delivers(segs, off, n) == segs[k][o..] + rest[..n - (|segs[k]| - o)]
            else if o > 0 then Delivers(segs, off, n) == segs[k][o..o + n]
            else n <= |rest| && Delivers(segs, off, n) == rest[..n]
  {
    ReadFits(segs, off, n, k, o);
    hide Flat, Seek, Readable;
  }

  /** IntNetSgReadEx. */
  method SgReadEx(sg: Sg, offSrc: nat, cbToRead: nat, buf: array<byte>)
    requires sg.cbTotal == |Flat(sg.segs)| && Readable(sg.segs, offSrc, cbToRead) && cbToRead <= buf.Length
    modifies buf
    ensures buf[..] == Put(old(buf[..]), 0, Delivers(sg.segs, offSrc, cbToRead))
  {
    ghost var before := buf[..];
    PutNothing(before, 0);
    ReadFrom(sg.segs, offSrc, cbToRead, buf, before);
  }

  /** The search for the first segment, which may copy its rest, and then the segments behind. */
  method ReadFrom(segs: seq<seq<byte>>, offSrc: nat, cbToRead: nat, buf: array<byte>, ghost before: seq<byte>)
    requires Readable(segs, offSrc, cbToRead) && cbToRead <= buf.Length && Copied(buf, 0, before, [])
    modifies buf
    ensures Copied(buf, 0, before, Delivers(segs, offSrc, cbToRead))
  {
    hide Flat, Put, Seek, SeekAt, RestOf, Delivers, Readable, Copied;
    ghost var (k, o) := Seek(segs, offSrc);
    DeliversFrom(segs, offSrc, cbToRead, k, o);
    SeekBegins(segs, offSrc);
    ghost var done: seq<byte> := [];
    var pbDst: nat, iSeg: nat, off: nat, cb: nat := 0, 0, offSrc, cbToRead;
    while off > 0
      invariant iSeg <= k && pbDst == 0 && cb == cbToRead && done == [] && Copied(buf, 0, before, done)
      invariant SeekAt(segs, iSeg, off) == (k, o)
      decreases off, |segs| - iSeg
    {
      SeekStep(segs, iSeg, off, k, o);
      var cbSeg := |segs[iSeg]|;
      if off < cbSeg {
        var cbChunk := cbSeg - off;
        if cbChunk >= cb {
          NothingBefore(segs[iSeg][off..off + cb]);
          Append(buf, 0, segs[iSeg][off..off + cb], 0, before, []);
          return;
        }
        NothingBefore(segs[iSeg][off..]);
        Append(buf, 0, segs[iSeg][off..], 0, before, []);
        done := segs[iSeg][off..];
        pbDst, cb := cbChunk, cb - cbChunk;
        break;
      }
      off := off - cbSeg;
      iSeg := iSeg + 1;
    }
    SeekEnds(segs, iSeg);
    NothingBefore(RestOf(segs, k)[..cb]);
    CopySegments(segs, iSeg, buf, pbDst, cb, 0, before, done);
  }

  lemma NothingBefore(a: seq<byte>)
    ensures [] + a == a
  {
  }

  /** The copying loop of IntNetSgReadEx: whole segments from `first` on, then the front of the last one needed. */
  method CopySegments(segs: seq<seq<byte>>, first: nat, buf: array<byte>, at: nat, cbToRead: nat,
                      ghost base: nat, ghost before: seq<byte>, ghost done: seq<byte>)
    requires first < |segs| && cbToRead <= |RestOf(segs, first)| && at + cbToRead <= buf.Length
    requires at == base + |done| && Copied(buf, base, before, done)
    modifies buf
    ensures Copied(buf, base, before, done + RestOf(segs, first)[..cbToRead])
  {
    ghost var copied := done;
    var pbDst, iSeg, cb := at, first, cbToRead;
    hide Flat, Put, RestOf, Copied;
    while |segs[iSeg]| < cb
      invariant first <= iSeg < |segs| && 0 <= cb <= |RestOf(segs, iSeg)|
      invariant pbDst == base + |copied| && |copied| + cb == |done| + cbToRead
      invariant done + RestOf(segs, first)[..cbToRead] == copied + RestOf(segs, iSeg)[..cb]
      invariant Copied(buf, base, before, copied)
      decreases |segs| - iSeg
    {
      var cbSeg := |segs[iSeg]|;
      NextSegment(segs, iSeg, cb);
      RestHead(segs, iSeg);
      NextChunk(copied, RestOf(segs, iSeg), segs[iSeg], RestOf(segs, iSeg + 1), cb);
      Append(buf, pbDst, segs[iSeg], base, before, copied);
      copied := copied + segs[iSeg];
      pbDst, cb, iSeg := pbDst + cbSeg, cb - cbSeg, iSeg + 1;
    }
    LastChunk(segs, iSeg, cb);
    Append(buf, pbDst, segs[iSeg][..cb], base, before, copied);
  }

  lemma RestHead(segs: seq<seq<byte>>, k: nat)
    requires k < |segs|
    ensures RestOf(segs, k) == segs[k] + RestOf(segs, k + 1)
  {
  }

  /** A read that goes beyond a segment finds another one. */
  lemma NextSegment(segs: seq<seq<byte>>, i: nat, cb: nat)
    requires i < |segs| && |segs[i]| < cb <= |RestOf(segs, i)|
    ensures i + 1 < |segs|
  {
    FlatHead(segs, i);
  }

  /** A read that stays within a segment takes its front. */
  lemma LastChunk(segs: seq<seq<byte>>, i: nat, cb: nat)
    requires i < |segs| && cb <= |segs[i]|
    ensures cb <= |RestOf(segs, i)| && RestOf(segs, i)[..cb] == segs[i][..cb]
  {
  }

  /** Taking one whole segment off the front of what is still to be delivered. */
  lemma NextChunk(done: seq<byte>, rest: seq<byte>, seg: seq<byte>, rest': seq<byte>, cb: nat)
    requires |seg| <= cb <= |rest| && rest == seg + rest'
    ensures cb - |seg| <= |rest'| && done + rest[..cb] == (done + seg) + rest'[..cb - |seg|]
  {
  }

  lemma SliceFront(whole: seq<byte>, seg: seq<byte>, rest: seq<byte>, lo: nat, hi: nat)
    requires whole == seg + rest && lo <= hi <= |seg|
    ensures whole[lo..hi] == seg[lo..hi]
  {
  }

  lemma SliceBehind(whole: seq<byte>, a: seq<byte>, b: seq<byte>, off: nat, n: nat)
    requires whole == a + b && |a| <= off && off + n <= |whole|
    ensures whole[off..off + n] == b[off - |a|..off - |a| + n]
  {
  }

  /** The bytes the reader asked for. */
  function Slice(segs: seq<seq<byte>>, off: nat, n: nat): seq<byte>
    requires off + n <= |Flat(segs)|
  {
    Flat(segs)[off..off + n]
  }

  /** A read that starts on a segment boundary or stays within one segment delivers the slice asked for. */
  lemma DeliversSliceUnlessCrossing(segs: seq<seq<byte>>, off: nat, n: nat)
    requires Readable(segs, off, n) && !Crosses(segs, off, n)
    ensures Delivers(segs, off, n) == Slice(segs, off, n)
  {
    var (k, o) := Seek(segs, off);
    SliceFrom(segs, off, n, k, o);
    DeliversFrom(segs, off, n, k, o);
    if o > 0 {
      FlatHead(segs, k);
      hide Flat, Seek, Readable, Delivers, Slice;
      SliceFront(Flat(segs[k..]), segs[k], Flat(segs[k + 1..]), o, o + n);
    }
    hide Flat, Seek, Readable, Delivers, Slice;
  }

  /** The slice as counted from the segment where the search stops. */
  lemma SliceFrom(segs: seq<seq<byte>>, off: nat, n: nat, k: nat, o: nat)
    requires Readable(segs, off, n) && Seek(segs, off) == (k, o)
    ensures k < |segs| && o + n <= |Flat(segs[k..])| && Slice(segs, off, n) == Flat(segs[k..])[o..o + n]
  {
    ReadFits(segs, off, n, k, o);
    SeekInside(segs, off);
    SplitAt(segs, k);
    FlatJoins(segs[..k], segs[k..]);
    hide Flat, Seek, Readable;
    SliceBehind(Flat(segs), Flat(segs[..k]), Flat(segs[k..]), off, n);
  }

  /** The whole list read through IntNetSgReadEx is what IntNetSgRead writes. */
  lemma WholeReadAgrees(segs: seq<seq<byte>>)
    requires segs != []
    ensures Readable(segs, 0, |Flat(segs)|) && Delivers(segs, 0, |Flat(segs)|) == Flat(segs)
  {
  }

  ghost predicate SameShape(a: seq<seq<byte>>, b: seq<seq<byte>>) {
    |a| == |b| && forall i | 0 <= i < |a| :: |a[i]| == |b[i]|
  }

  lemma {:induction false} ShapeDecides(a: seq<seq<byte>>, b: seq<seq<byte>>, off: nat)
    requires SameShape(a, b)
    ensures |Flat(a)| == |Flat(b)| && Seek(a, off) == Seek(b, off)
    decreases a
  {
    if a != [] {
      ShapeDecides(a[1..], b[1..], if off < |a[0]| then 0 else off - |a[0]|);
    }
  }

  /**
   Given the segment sizes, a read delivers what was asked for whatever the segments contain if and only if it does not
   start inside a segment and cross its end.
   */
  lemma DeliversSliceExactly(segs: seq<seq<byte>>, off: nat, n: nat)
    requires Readable(segs, off, n)
    ensures forall other | SameShape(segs, other) :: Readable(other, off, n)
    ensures (forall other | SameShape(segs, other) :: Delivers(other, off, n) == Slice(other, off, n))
            <==> !Crosses(segs, off, n)
  {
    forall other | SameShape(segs, other)
      ensures Readable(other, off, n) && (Crosses(other, off, n) <==> Crosses(segs, off, n))
      ensures !Crosses(segs, off, n) ==> Delivers(other, off, n) == Slice(other, off, n)
    {
      ShapeDecides(segs, other, off);
      SeekInside(segs, off);
      if !Crosses(segs, off, n) {
        DeliversSliceUnlessCrossing(other, off, n);
      }
    }
    if Crosses(segs, off, n) {
      var other := WrongContents(segs, off, n);
      assert SameShape(segs, other) && Delivers(other, off, n) != Slice(other, off, n);
    }
  }

  /** Contents for which a crossing read goes wrong: the segment's first byte differs from the one after its end. */
  lemma WrongContents(segs: seq<seq<byte>>, off: nat, n: nat) returns (other: seq<seq<byte>>)
    requires Readable(segs, off, n) && Crosses(segs, off, n)
    ensures SameShape(segs, other) && Readable(other, off, n) && Delivers(other, off, n) != Slice(other, off, n)
  {
    SeekInside(segs, off);
    var (k, o) := Seek(segs, off);
    FlatFrom(segs, k);
    var tail := Flat(segs[k + 1..]);
    assert |tail| > 0;
    var v: byte := if tail[0] == 0 then 1 else 0;
    var seg: seq<byte> := [v] + segs[k][1..];
    other := segs[k := seg];
    ShapeDecides(segs, other, off);
    assert other[k + 1..] == segs[k + 1..] && other[..k] == segs[..k] && Readable(other, off, n);
    CrossingByte(other, off, n, k, o);
  }

  lemma CrossingChunk(rest: seq<byte>, seg: seq<byte>, tail: seq<byte>, o: nat, n: nat)
    requires rest == seg + tail && 0 < o < |seg| && |seg| - o < n && o + n <= |rest|
    ensures tail != [] && rest[o..o + n][|seg| - o] == tail[0]
    ensures (seg[o..] + rest[..n - (|seg| - o)])[|seg| - o] == seg[0]
  {
  }

  /** Right behind the partial segment, the read delivers the segment's first byte instead of the next segment's. */
  lemma CrossingByte(segs: seq<seq<byte>>, off: nat, n: nat, k: nat, o: nat)
    requires Readable(segs, off, n) && Crosses(segs, off, n) && Seek(segs, off) == (k, o)
    ensures k < |segs| && 0 < o < |segs[k]| && |segs[k]| - o < n && Flat(segs[k + 1..]) != []
    ensures Delivers(segs, off, n)[|segs[k]| - o] == segs[k][0]
    ensures Slice(segs, off, n)[|segs[k]| - o] == Flat(segs[k + 1..])[0]
  {
    SliceFrom(segs, off, n, k, o);
    DeliversFrom(segs, off, n, k, o);
    FlatHead(segs, k);
    hide Flat, Seek, Readable, Delivers, Slice;
    CrossingChunk(Flat(segs[k..]), segs[k], Flat(segs[k + 1..]), o, n);
  }

  /**
   Every byte of a crossing read: the rest of the partial segment is right, and everything behind it comes from the
   front of that same segment on, as many bytes too early as the segment is long.
   */
  lemma CrossingBytes(segs: seq<seq<byte>>, off: nat, n: nat, k: nat, o: nat, j: nat)
    requires Readable(segs, off, n) && Crosses(segs, off, n) && Seek(segs, off) == (k, o) && j < n
    ensures k < |segs| && 0 < o < |segs[k]|
    ensures var i := if j < |segs[k]| - o then off + j else off + j - |segs[k]|;
            0 <= i < |Flat(segs)| && Delivers(segs, off, n)[j] == Flat(segs)[i]
  {
    DeliversFrom(segs, off, n, k, o);
    SeekInside(segs, off);
    FlatFrom(segs, k);
    hide Flat, Seek, Readable, Delivers;
    CrossingFrom(FrontOf(segs, k), segs[k], RestOf(segs, k + 1), off, n, o, j);
  }

  lemma CrossingFrom(front: seq<byte>, seg: seq<byte>, tail: seq<byte>, off: nat, n: nat, o: nat, j: nat)
    requires 0 < o < |seg| && off == |front| + o && |seg| - o < n && n - (|seg| - o) <= |seg + tail| && j < n
    requires off + n <= |front + (seg + tail)|
    ensures var whole := front + (seg + tail);
            var i := if j < |seg| - o then off + j else off + j - |seg|;
            0 <= i < |whole| && (seg[o..] + (seg + tail)[..n - (|seg| - o)])[j] == whole[i]
  {
  }

  /** Two bytes from offset 1 of a segment of two and a segment of one. */
  lemma CrossingExample()
    ensures var segs: seq<seq<byte>> := [[1, 2], [3]];
      && Readable(segs, 1, 2) && Crosses(segs, 1, 2)
      && Delivers(segs, 1, 2) == [2, 1] && Slice(segs, 1, 2) == [2, 3]
  {
  }
}
