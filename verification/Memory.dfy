/** Copying into arrays. */
module Memory {
  import opened MachineWords

  /** memcpy into an array. */
  method CopyInto(dst: array<byte>, at: nat, src: seq<byte>)
    requires at + |src| <= dst.Length
    modifies dst
    ensures dst[..] == Put(old(dst[..]), at, src)
  {
    var i := 0;
    while i < |src|
      invariant 0 <= i <= |src|
      invariant forall j | 0 <= j < dst.Length :: dst[j] == if at <= j < at + i then src[j - at] else old(dst[j])
    {
      dst[at + i] := src[i];
      i := i + 1;
    }
  }

  lemma PutWithin(m: seq<byte>, lo: int, hi: int, at: int, bs: seq<byte>)
    requires 0 <= lo <= hi <= |m| && lo <= at && at + |bs| <= hi
    ensures Put(m, at, bs)[lo..hi] == Put(m[lo..hi], at - lo, bs)
  {
  }
}
