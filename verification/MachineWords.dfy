/** Fixed-width integers of the C source, and byte sequences. */
module MachineWords {

  type byte = x: int | 0 <= x < 0x100
  type u16 = x: int | 0 <= x < 0x1_0000
  type u32 = x: int | 0 <= x < 0x1_0000_0000
  type s32 = x: int | -0x8000_0000 <= x < 0x8000_0000

  /** Conversion to `uint16_t`: truncation modulo 2^16. */
  function U16(x: int): u16 { x % 0x1_0000 }

  lemma U16Identity(x: u16)
    ensures U16(x) == x
  {
  }

  /** Conversion to `uint32_t`: truncation modulo 2^32, also of a negative value. */
  function U32(x: int): u32 { x % 0x1_0000_0000 }

  lemma U32Identity(x: u32)
    ensures U32(x) == x
  {
  }

  /** Reinterpretation of a `uint32_t` as an `int32_t` in two's complement. */
  function S32(x: u32): s32 { if x < 0x8000_0000 then x else x - 0x1_0000_0000 }

  /** `RT_ALIGN_32(x, 8)`: the addition wraps, then the low three bits are cleared. */
  function AlignU32(x: u32): u32 { U32(x + 7) / 8 * 8 }

  predicate Aligned(x: int) { x % 8 == 0 }

  /** The mathematical round-up to a multiple of eight. */
  function Align8(x: nat): (r: nat)
    ensures x <= r < x + 8
  {
    if x == 0 then 0 else if x <= 8 then 8 else 8 + Align8(x - 8)
  }

  lemma {:induction false} Align8IsAligned(x: nat)
    ensures Aligned(Align8(x))
  {
    if x > 8 {
      Align8IsAligned(x - 8);
    }
  }

  /** The only multiple of eight within reach above `x` is its round-up. */
  lemma Align8Unique(x: nat, r: int)
    requires Aligned(r) && x <= r < x + 8
    ensures r == Align8(x)
  {
    Align8IsAligned(x);
  }

  lemma AlignedGap(x: int, y: int)
    requires Aligned(x) && Aligned(y) && x < y
    ensures x + 8 <= y
  {
  }

  lemma AlignedSum(x: int, y: int)
    requires Aligned(x) && Aligned(y)
    ensures Aligned(x + y) && Aligned(x - y)
  {
  }

  /** Rounding up keeps the order, and distinct results are at least eight apart. */
  lemma Align8Gap(x: nat, y: nat)
    requires x <= y
    ensures Align8(x) == Align8(y) || Align8(x) + 8 <= Align8(y)
  {
  }

  /** Overwrites `m` with `bs` from index `off` on. */
  function Put(m: seq<byte>, off: int, bs: seq<byte>): (r: seq<byte>)
    requires 0 <= off && off + |bs| <= |m|
    ensures |r| == |m|
    ensures forall i {:trigger r[i]} | 0 <= i < |m| :: r[i] == if off <= i < off + |bs| then bs[i - off] else m[i]
  {
    m[..off] + bs + m[off + |bs|..]
  }

  /** A write leaves every stretch it does not overlap alone. */
  lemma PutElsewhere(m: seq<byte>, off: int, bs: seq<byte>, lo: int, hi: int)
    requires 0 <= off && off + |bs| <= |m| && 0 <= lo <= hi <= |m|
    requires hi <= off || off + |bs| <= lo
    ensures Put(m, off, bs)[lo..hi] == m[lo..hi]
  {
  }

  /** Two adjacent writes are one write of the concatenation. */
  lemma PutAdjacent(m: seq<byte>, off: int, a: seq<byte>, b: seq<byte>)
    requires 0 <= off && off + |a| + |b| <= |m|
    ensures Put(Put(m, off, a), off + |a|, b) == Put(m, off, a + b)
  {
  }
}
