/**
 * A deliberately insecure stand-in for the library calls, built only to show
 * that the properties collected in `Crypto.Sound()` can all hold at once, so
 * the lemmas that require them are not vacuous.
 */
module ToyCrypto {
  import opened Wrappers
  import opened Primitives

  function CurveTag(c: Curve): byte {
    match c
    case NistP256 => 0
    case NistP384 => 1
    case NistP521 => 2
  }

  function TagCurve(b: byte): Option<Curve> {
    if b == 0 then Some(NistP256)
    else if b == 1 then Some(NistP384)
    else if b == 2 then Some(NistP521)
    else None
  }

  function ExportPrivate(k: PrivateKey): seq<byte> {
    [CurveTag(k.curve)] + k.d
  }

  function ImportPrivate(blob: seq<byte>): Option<PrivateKey> {
    if blob == [] then None
    else match TagCurve(blob[0])
      case None => None
      case Some(c) => Some(PrivateKey(c, blob[1..]))
  }

  function ExportPublic(q: PublicKey): seq<byte> {
    [CurveTag(q.curve)] + q.q
  }

  function ImportPublic(blob: seq<byte>): Option<PublicKey> {
    if blob == [] then None
    else match TagCurve(blob[0])
      case None => None
      case Some(c) => Some(PublicKey(c, blob[1..]))
  }

  function PublicOf(k: PrivateKey): PublicKey {
    PublicKey(k.curve, [])
  }

  function Agree(k: PrivateKey, q: PublicKey): Option<seq<byte>> {
    if k.curve == q.curve then Some([]) else None
  }

  function Zeros(n: nat): (z: seq<byte>)
    ensures |z| == n
  {
    seq(n, _ => 0)
  }

  function Digest(s: seq<byte>): seq<byte> {
    Zeros(DigestSize)
  }

  function Seal(key: seq<byte>, iv: seq<byte>, p: seq<byte>): Sealed {
    Sealed(p, Zeros(TagSize))
  }

  function Open(key: seq<byte>, iv: seq<byte>, ct: seq<byte>, tag: seq<byte>): Option<seq<byte>> {
    if tag == Zeros(TagSize) then Some(ct) else None
  }

  /** A character as three big-endian bytes of its scalar value. */
  function EncodeChar(ch: char): (b: seq<byte>)
    ensures |b| == 3
  {
    var n := ch as int;
    [(n / 65536) as byte, (n % 65536 / 256) as byte, (n % 256) as byte]
  }

  function DecodeChar(b0: byte, b1: byte, b2: byte): char {
    var n := b0 as int * 65536 + b1 as int * 256 + b2 as int;
    if 0 <= n < 0xD800 || 0xE000 <= n < 0x11_0000 then n as char else '?'
  }

  function Encode(s: string): seq<byte> {
    if s == [] then [] else EncodeChar(s[0]) + Encode(s[1..])
  }

  function Decode(b: seq<byte>): string
    decreases |b|
  {
    if |b| < 3 then [] else [DecodeChar(b[0], b[1], b[2])] + Decode(b[3..])
  }

  /** Decoding the three bytes of a character gives the character back. */
  lemma CharRoundTrip(ch: char)
    ensures var b := EncodeChar(ch); DecodeChar(b[0], b[1], b[2]) == ch
  {
    var n := ch as int;
    var hi, rest := n / 65536, n % 65536;
    assert n == hi * 65536 + rest;
    assert rest == rest / 256 * 256 + rest % 256;
    assert rest % 256 == n % 256;
  }

  /** The toy text encoding round-trips every string. */
  lemma {:induction false} DecodeEncode(s: string)
    ensures Decode(Encode(s)) == s
  {
    if s != [] {
      var e := Encode(s);
      assert e == EncodeChar(s[0]) + Encode(s[1..]);
      assert e[3..] == Encode(s[1..]);
      CharRoundTrip(s[0]);
      DecodeEncode(s[1..]);
    }
  }

  function Toy(): Crypto {
    Crypto(ImportPrivate, ImportPublic, ExportPrivate, ExportPublic, PublicOf, Agree,
           Digest, Seal, Open, Encode, Decode)
  }

  /** The properties the model assumes of the library are consistent. */
  lemma SoundIsSatisfiable()
    ensures exists c: Crypto :: c.Sound()
  {
    var c := Toy();
    forall k: PrivateKey
      ensures ImportPrivate(ExportPrivate(k)) == Some(k)
    {
      assert ExportPrivate(k)[1..] == k.d;
    }
    forall q: PublicKey
      ensures ImportPublic(ExportPublic(q)) == Some(q)
    {
      assert ExportPublic(q)[1..] == q.q;
    }
    forall s: string
      ensures Decode(Encode(s)) == s
    {
      DecodeEncode(s);
    }
    assert c.Sound();
  }
}
