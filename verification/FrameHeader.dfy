/** INTNETHDR: the eight-byte header in front of every frame, and its memory image. */
module FrameHeader {
  import opened MachineWords

  const HEADER_SIZE := 8
  const TYPE_FRAME: u16 := 0x2442
  const TYPE_PADDING: u16 := 0x3553
  const TYPE_GSO: u16 := 0x4664

  /** `cb` is the frame size; `off` leads from the header to the frame and is negative for a split frame. */
  datatype Header = Header(kind: u16, cb: u16, off: s32)

  predicate IsValidFrameType(kind: u16) {
    kind == TYPE_FRAME || kind == TYPE_GSO || kind == TYPE_PADDING
  }

  function Power256(n: nat): (p: nat)
    ensures p > 0
  {
    if n == 0 then 1 else 0x100 * Power256(n - 1)
  }

  /** The value of a little-endian byte string. */
  function FromBytes(b: seq<byte>): (v: nat)
    ensures v < Power256(|b|)
  {
    if b == [] then 0 else b[0] + 0x100 * FromBytes(b[1..])
  }

  /** The `n` low bytes of a value, lowest first. */
  function ToBytes(v: nat, n: nat): (b: seq<byte>)
    ensures |b| == n
  {
    if n == 0 then [] else [v % 0x100] + ToBytes(v / 0x100, n - 1)
  }

  lemma {:induction false} FromToBytes(v: nat, n: nat)
    requires v < Power256(n)
    ensures FromBytes(ToBytes(v, n)) == v
  {
    if n > 0 {
      FromToBytes(v / 0x100, n - 1);
    }
  }

  lemma {:induction false} ToFromBytes(b: seq<byte>)
    ensures ToBytes(FromBytes(b), |b|) == b
  {
    if b != [] {
      ToFromBytes(b[1..]);
      assert FromBytes(b) / 0x100 == FromBytes(b[1..]);
    }
  }

  /** Little-endian image: type, size, offset. */
  function Encode(h: Header): (b: seq<byte>)
    ensures |b| == HEADER_SIZE
  {
    ToBytes(h.kind, 2) + ToBytes(h.cb, 2) + ToBytes(U32(h.off), 4)
  }

  function Decode(b: seq<byte>): Header
    requires |b| == HEADER_SIZE
  {
    assert Power256(2) == 0x1_0000 && Power256(4) == 0x1_0000_0000;
    Header(FromBytes(b[..2]), FromBytes(b[2..4]), S32(FromBytes(b[4..])))
  }

  /** The image byte by byte: each field with its low byte first, the offset in two's complement. */
  lemma HeaderImage(h: Header)
    ensures var u: int := if h.off < 0 then h.off + 0x1_0000_0000 else h.off;
            Encode(h) == [h.kind % 0x100, h.kind / 0x100, h.cb % 0x100, h.cb / 0x100,
                          u % 0x100, u / 0x100 % 0x100, u / 0x1_0000 % 0x100, u / 0x100_0000]
  {
    TwoBytes(h.kind);
    TwoBytes(h.cb);
    FourBytes(U32(h.off));
    hide ToBytes;
    var u: int := if h.off < 0 then h.off + 0x1_0000_0000 else h.off;
    assert U32(h.off) == u;
    hide U32;
    EightInARow(h.kind % 0x100, h.kind / 0x100, h.cb % 0x100, h.cb / 0x100,
                u % 0x100, u / 0x100 % 0x100, u / 0x1_0000 % 0x100, u / 0x100_0000);
  }

  lemma EightInARow<T>(a: T, b: T, c: T, d: T, e: T, f: T, g: T, h: T)
    ensures [a, b] + [c, d] + [e, f, g, h] == [a, b, c, d, e, f, g, h]
  {
  }

  lemma TwoBytes(v: u16)
    ensures ToBytes(v, 2) == [v % 0x100, v / 0x100]
  {
  }

  lemma FourBytes(v: u32)
    ensures ToBytes(v, 4) == [v % 0x100, v / 0x100 % 0x100, v / 0x1_0000 % 0x100, v / 0x100_0000]
  {
    TwoBytes(v / 0x1_0000);
    var rest := v / 0x100;
    assert ToBytes(rest, 3) == [rest % 0x100] + ToBytes(rest / 0x100, 2);
  }

  lemma DecodeEncode(h: Header)
    ensures Decode(Encode(h)) == h
  {
    assert Power256(2) == 0x1_0000 && Power256(4) == 0x1_0000_0000;
    FromToBytes(h.kind, 2);
    FromToBytes(h.cb, 2);
    FromToBytes(U32(h.off), 4);
    var b := Encode(h);
    assert b[..2] == ToBytes(h.kind, 2) && b[2..4] == ToBytes(h.cb, 2) && b[4..] == ToBytes(U32(h.off), 4);
  }

  lemma EncodeDecode(b: seq<byte>)
    requires |b| == HEADER_SIZE
    ensures Encode(Decode(b)) == b
  {
    assert Power256(4) == 0x1_0000_0000;
    ToFromBytes(b[..2]);
    ToFromBytes(b[2..4]);
    ToFromBytes(b[4..]);
    assert U32(S32(FromBytes(b[4..]))) == FromBytes(b[4..]);
  }

  function ReadHeader(m: seq<byte>, at: int): Header
    requires 0 <= at && at + HEADER_SIZE <= |m|
  {
    Decode(m[at..at + HEADER_SIZE])
  }

  /** Storing the two bytes of the size field stores the header with another size. */
  lemma SizeField(m: seq<byte>, h: nat, cb: u16)
    requires h + HEADER_SIZE <= |m|
    ensures Put(m, h + 2, ToBytes(cb, 2)) == Put(m, h, Encode(ReadHeader(m, h).(cb := cb)))
  {
    var b := m[h..h + HEADER_SIZE];
    SizeFieldImage(b, cb);
    hide Encode, Decode, ToBytes;
    var b' := b[..2] + ToBytes(cb, 2) + b[4..];
    assert forall i | 0 <= i < 8 :: b'[i] == if 2 <= i < 4 then ToBytes(cb, 2)[i - 2] else m[h + i];
  }

  lemma SizeFieldImage(b: seq<byte>, cb: u16)
    requires |b| == HEADER_SIZE
    ensures Encode(Decode(b).(cb := cb)) == b[..2] + ToBytes(cb, 2) + b[4..]
  {
    EncodeDecode(b);
    var hd := Decode(b);
    assert Encode(hd)[..2] == ToBytes(hd.kind, 2) && Encode(hd)[4..] == ToBytes(U32(hd.off), 4);
  }
}
