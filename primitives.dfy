/**
 * The cryptographic and text-encoding library calls the service makes, kept
 * uninterpreted. A `Crypto` value bundles one implementation of each call;
 * `Sound()` collects the properties the model relies on. Nothing here is proved
 * about elliptic curves, SHA-256, AES-GCM or UTF-8 themselves: every lemma that
 * needs such a property requires `Sound()`.
 */
module Primitives {
  import opened Wrappers

  newtype byte = b: int | 0 <= b < 256

  /** Size of the AES-GCM nonce the service draws (96 bits). */
  const NonceSize: nat := 12
  /** Size of the AES-GCM authentication tag the service asks for (128 bits). */
  const TagSize: nat := 16
  /** Size of a SHA-256 digest, which the service uses as the AES key. */
  const DigestSize: nat := 32

  /** The named curves a PKCS#8 or SubjectPublicKeyInfo blob can carry. */
  datatype Curve = NistP256 | NistP384 | NistP521

  /** An imported EC private key: its curve and its private scalar. */
  datatype PrivateKey = PrivateKey(curve: Curve, d: seq<byte>)

  /** An imported EC public key: its curve and its encoded point. */
  datatype PublicKey = PublicKey(curve: Curve, q: seq<byte>)

  /** What AES-GCM encryption writes into its two output buffers. */
  datatype Sealed = Sealed(ciphertext: seq<byte>, tag: seq<byte>)

  datatype Crypto = Crypto(
    /** ImportPkcs8PrivateKey: None where the library throws. */
    importPkcs8: seq<byte> -> Option<PrivateKey>,
    /** ImportSubjectPublicKeyInfo: None where the library throws. */
    importSpki: seq<byte> -> Option<PublicKey>,
    /** ExportPkcs8PrivateKey. */
    exportPkcs8: PrivateKey -> seq<byte>,
    /** ExportSubjectPublicKeyInfo. */
    exportSpki: PublicKey -> seq<byte>,
    /** The public half of a private key. */
    publicOf: PrivateKey -> PublicKey,
    /** ECDiffieHellman.DeriveKeyMaterial (its output, not the raw agreed point): None where the library throws. */
    deriveKeyMaterial: (PrivateKey, PublicKey) -> Option<seq<byte>>,
    /** SHA256.ComputeHash. */
    sha256: seq<byte> -> seq<byte>,
    /** AesGcm.Encrypt(key, nonce, plaintext), no associated data. */
    seal: (seq<byte>, seq<byte>, seq<byte>) -> Sealed,
    /** AesGcm.Decrypt(key, nonce, ciphertext, tag): None where the tag does not verify. */
    open: (seq<byte>, seq<byte>, seq<byte>, seq<byte>) -> Option<seq<byte>>,
    /** Encoding.UTF8.GetBytes. */
    utf8Encode: string -> seq<byte>,
    /** Encoding.UTF8.GetString. */
    utf8Decode: seq<byte> -> string
  ) {

    /** The properties of the library calls that the model assumes. */
    ghost predicate Sound() {
      // key import reads back what key export wrote (RFC 5208 section 5, RFC 5280 section 4.1.2.7)
      && (forall k :: importPkcs8(exportPkcs8(k)) == Some(k))
      && (forall q :: importSpki(exportSpki(q)) == Some(q))
      // a key pair lives on one curve
      && (forall k :: publicOf(k).curve == k.curve)
      // ECDH is defined exactly for two keys on one curve, and both sides agree
      && (forall k, q :: deriveKeyMaterial(k, q).Some? <==> k.curve == q.curve)
      && (forall a, b :: deriveKeyMaterial(a, publicOf(b)) == deriveKeyMaterial(b, publicOf(a)))
      // SHA-256 digests are 32 bytes
      && (forall s :: |sha256(s)| == DigestSize)
      // GCM ciphertext is as long as the plaintext and the tag is 16 bytes
      && (forall key, iv, p :: |seal(key, iv, p).ciphertext| == |p| && |seal(key, iv, p).tag| == TagSize)
      // opening a sealed buffer under the same key and nonce gives back the plaintext
      && (forall key, iv, p :: open(key, iv, seal(key, iv, p).ciphertext, seal(key, iv, p).tag) == Some(p))
      // under one key and nonce, the ciphertext determines the plaintext (GCM encrypts in counter mode)
      && (forall key, iv, p1, p2 :: seal(key, iv, p1).ciphertext == seal(key, iv, p2).ciphertext ==> p1 == p2)
      // open succeeds only on what seal produced (integrity of ciphertexts)
      && (forall key, iv, ct, tag :: open(key, iv, ct, tag).Some? ==>
            seal(key, iv, open(key, iv, ct, tag).value) == Sealed(ct, tag))
      // UTF-8 decoding inverts encoding (a Dafny string holds no lone surrogate)
      && (forall s :: utf8Decode(utf8Encode(s)) == s)
    }
  }
}
