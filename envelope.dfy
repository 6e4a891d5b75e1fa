/**
 * The byte layout of an encrypted message: nonce (12 bytes), ciphertext,
 * tag (16 bytes), concatenated in that order. The same layout carries live
 * messages and archived chat histories.
 */
module Envelope {
  import opened Primitives

  /** Bytes an envelope adds to its ciphertext. */
  const Overhead: nat := NonceSize + TagSize

  /** The three fields of an envelope. */
  datatype Parts = Parts(nonce: seq<byte>, ciphertext: seq<byte>, tag: seq<byte>)

  /** Concatenation in wire order. */
  function Assemble(nonce: seq<byte>, ciphertext: seq<byte>, tag: seq<byte>): seq<byte> {
    nonce + ciphertext + tag
  }

  /** First 12 bytes, last 16 bytes, and everything between. */
  function Split(data: seq<byte>): (p: Parts)
    requires |data| >= Overhead
    ensures |p.nonce| == NonceSize && |p.tag| == TagSize
    ensures |p.ciphertext| == |data| - Overhead
  {
    Parts(data[..NonceSize], data[NonceSize..|data| - TagSize], data[|data| - TagSize..])
  }

  /** An envelope is its ciphertext plus 28 bytes, and each field sits at its fixed offset. */
  lemma AssembleLayout(nonce: seq<byte>, ciphertext: seq<byte>, tag: seq<byte>)
    requires |nonce| == NonceSize && |tag| == TagSize
    ensures var e := Assemble(nonce, ciphertext, tag);
      && |e| == |ciphertext| + Overhead
      && e[..NonceSize] == nonce
      && e[NonceSize..NonceSize + |ciphertext|] == ciphertext
      && e[|e| - TagSize..] == tag
  {
    var e := Assemble(nonce, ciphertext, tag);
    assert e[..NonceSize] == nonce;
    assert e[NonceSize..NonceSize + |ciphertext|] == ciphertext;
    assert e[|e| - TagSize..] == tag;
  }

  /** Splitting undoes assembling. */
  lemma SplitAssemble(nonce: seq<byte>, ciphertext: seq<byte>, tag: seq<byte>)
    requires |nonce| == NonceSize && |tag| == TagSize
    ensures Split(Assemble(nonce, ciphertext, tag)) == Parts(nonce, ciphertext, tag)
  {
    AssembleLayout(nonce, ciphertext, tag);
  }

  /** Assembling undoes splitting: no byte of a long enough buffer is lost or moved. */
  lemma AssembleSplit(data: seq<byte>)
    requires |data| >= Overhead
    ensures var p := Split(data); Assemble(p.nonce, p.ciphertext, p.tag) == data
  {
    var p := Split(data);
    assert data == data[..NonceSize] + data[NonceSize..|data| - TagSize] + data[|data| - TagSize..];
  }
}
