/**
 * The byte-array copies the service performs: Buffer.BlockCopy and the
 * library calls that fill a whole output buffer (RandomNumberGenerator.Fill,
 * the output spans of AesGcm).
 */
module Buffers {
  import opened Primitives

  /**
   * Buffer.BlockCopy throws unless both offsets and the count are
   * non-negative and both ranges lie inside their arrays.
   */
  predicate CopyInRange(srcLength: int, srcOffset: int, dstLength: int, dstOffset: int, count: int) {
    0 <= srcOffset && 0 <= dstOffset && 0 <= count
    && srcOffset + count <= srcLength && dstOffset + count <= dstLength
  }

  /** Buffer.BlockCopy: copies `count` bytes; overlapping ranges copy as if through a temporary. */
  method BlockCopy(src: array<byte>, srcOffset: int, dst: array<byte>, dstOffset: int, count: int)
    requires CopyInRange(src.Length, srcOffset, dst.Length, dstOffset, count)
    modifies dst
    ensures dst[..] == old(dst[..dstOffset]) + old(src[srcOffset..srcOffset + count]) + old(dst[dstOffset + count..])
  {
    var chunk := src[srcOffset..srcOffset + count];
    var i := 0;
    while i < count
      invariant 0 <= i <= count
      invariant forall j :: 0 <= j < dst.Length ==>
        dst[j] == if dstOffset <= j < dstOffset + i then chunk[j - dstOffset] else old(dst[j])
    {
      dst[dstOffset + i] := chunk[i];
      i := i + 1;
    }
    ghost var expected := old(dst[..dstOffset]) + chunk + old(dst[dstOffset + count..]);
    assert |expected| == dst.Length;
    assert forall j :: 0 <= j < dst.Length ==> dst[..][j] == expected[j];
  }

  /** Overwrites the whole of `dst` with `bytes`, as a library call writing an output buffer does. */
  method Fill(dst: array<byte>, bytes: seq<byte>)
    requires |bytes| == dst.Length
    modifies dst
    ensures dst[..] == bytes
  {
    var i := 0;
    while i < dst.Length
      invariant 0 <= i <= dst.Length
      invariant dst[..i] == bytes[..i]
    {
      dst[i] := bytes[i];
      i := i + 1;
    }
  }

  /**
   * Three block copies that place `a`, `b` and `c` back to back into a buffer
   * of exactly their total length leave the buffer holding `a + b + c`,
   * whatever it held before. `s0` .. `s3` are the buffer's contents before and
   * after each copy.
   */
  lemma {:induction false} CopiesConcatenate(s0: seq<byte>, s1: seq<byte>, s2: seq<byte>, s3: seq<byte>,
                                             a: seq<byte>, b: seq<byte>, c: seq<byte>)
    requires |s0| == |a| + |b| + |c|
    requires s1 == s0[..0] + a + s0[|a|..]
    requires s2 == s1[..|a|] + b + s1[|a| + |b|..]
    requires s3 == s2[..|a| + |b|] + c + s2[|a| + |b| + |c|..]
    ensures s3 == a + b + c
  {
    assert s1[..|a|] == a;
    assert s2[..|a| + |b|] == a + b;
    assert s2[|a| + |b| + |c|..] == [];
  }
}
