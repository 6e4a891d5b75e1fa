/**
 * The ECC service: key-pair generation, ECDH key agreement hashed into an
 * AES-256-GCM key, and the envelope that carries nonce, ciphertext and tag.
 * `EncryptSpec` and `DecryptSpec` state what the two operations compute;
 * the methods `Encrypt` and `Decrypt` build and take apart the envelope in
 * byte arrays, as the service does, and are proved to compute exactly that.
 */
module EccService {
  import opened Wrappers
  import opened Primitives
  import Envelope
  import Buffers

  /** The exceptions Encrypt and Decrypt can throw, one kind per throwing call. */
  datatype CryptoError =
    | InvalidPrivateKey       // ImportPkcs8PrivateKey rejects the private key bytes
    | InvalidPublicKey        // ImportSubjectPublicKeyInfo rejects the public key bytes
    | KeyAgreementFailed      // DeriveKeyMaterial: the two keys are on different curves
    | NonceOutOfRange         // copying the 12-byte nonce reads past the input
    | TagOffsetNegative       // the tag's offset, length - 16, is negative
    | CiphertextSizeNegative  // the ciphertext array's size, length - 28, is negative
    | AuthenticationFailed    // AesGcm.Decrypt: the tag does not verify

  /** The three ways an input too short to be an envelope is rejected. */
  predicate IsMalformed(e: CryptoError) {
    e == NonceOutOfRange || e == TagOffsetNegative || e == CiphertextSizeNegative
  }

  datatype KeyPair = KeyPair(privateKey: seq<byte>, publicKey: seq<byte>)

  /**
   * GenerateNewKeyPair: a fresh P-256 key exported as PKCS#8 and its public
   * half as SubjectPublicKeyInfo. `scalar` is the random private scalar the
   * library draws.
   */
  function GenerateNewKeyPair(c: Crypto, scalar: seq<byte>): (kp: KeyPair)
    ensures c.Sound() ==>
      && c.importPkcs8(kp.privateKey) == Some(PrivateKey(NistP256, scalar))
      && c.importSpki(kp.publicKey) == Some(c.publicOf(PrivateKey(NistP256, scalar)))
  {
    var key := PrivateKey(NistP256, scalar);
    KeyPair(c.exportPkcs8(key), c.exportSpki(c.publicOf(key)))
  }

  /** Import both keys and run ECDH, failing as the first throwing call does. */
  function SharedSecret(c: Crypto, myPrivateKey: seq<byte>, peerPublicKey: seq<byte>): Result<seq<byte>, CryptoError> {
    match c.importPkcs8(myPrivateKey)
    case None => Failure(InvalidPrivateKey)
    case Some(mine) =>
      match c.importSpki(peerPublicKey)
      case None => Failure(InvalidPublicKey)
      case Some(theirs) =>
        match c.deriveKeyMaterial(mine, theirs)
        case None => Failure(KeyAgreementFailed)
        case Some(secret) => Success(secret)
  }

  /** The AES key is the SHA-256 digest of DeriveKeyMaterial's output: 256 bits. */
  function DeriveSymmetricKeyFromSecret(c: Crypto, sharedSecret: seq<byte>): (key: seq<byte>)
    ensures c.Sound() ==> |key| == DigestSize
  {
    c.sha256(sharedSecret)
  }

  /** The AES key both sides of a session derive; fails as the key handling does. */
  function SessionKey(c: Crypto, myPrivateKey: seq<byte>, peerPublicKey: seq<byte>): Result<seq<byte>, CryptoError> {
    var secret :- SharedSecret(c, myPrivateKey, peerPublicKey);
    Success(DeriveSymmetricKeyFromSecret(c, secret))
  }

  /** What Encrypt returns, given the nonce the random source draws. */
  function EncryptSpec(c: Crypto, plaintext: string, myPrivateKey: seq<byte>, recipientPublicKey: seq<byte>,
                       nonce: seq<byte>): Result<seq<byte>, CryptoError>
  {
    var key :- SessionKey(c, myPrivateKey, recipientPublicKey);
    var sealed := c.seal(key, nonce, c.utf8Encode(plaintext));
    Success(Envelope.Assemble(nonce, sealed.ciphertext, sealed.tag))
  }

  /**
   * What Decrypt returns: after the keys, the three length checks in the
   * order the copies make them, then the tag check.
   */
  function DecryptSpec(c: Crypto, encryptedData: seq<byte>, myPrivateKey: seq<byte>,
                       senderPublicKey: seq<byte>): Result<string, CryptoError>
  {
    var key :- SessionKey(c, myPrivateKey, senderPublicKey);
    if |encryptedData| < NonceSize then Failure(NonceOutOfRange)
    else if |encryptedData| < TagSize then Failure(TagOffsetNegative)
    else if |encryptedData| < Envelope.Overhead then Failure(CiphertextSizeNegative)
    else
      var parts := Envelope.Split(encryptedData);
      match c.open(key, parts.nonce, parts.ciphertext, parts.tag)
      case None => Failure(AuthenticationFailed)
      case Some(plaintextBytes) => Success(c.utf8Decode(plaintextBytes))
  }

  /**
   * Encrypt: derive the key, fill a 12-byte nonce from the random source
   * (`randomBytes`), seal the UTF-8 bytes into a ciphertext buffer of the
   * same length and a 16-byte tag buffer, and copy the three into one array.
   */
  method Encrypt(c: Crypto, plaintext: string, myPrivateKey: seq<byte>, recipientPublicKeyBytes: seq<byte>,
                 randomBytes: seq<byte>) returns (r: Result<array<byte>, CryptoError>)
    requires c.Sound()
    requires |randomBytes| == NonceSize
    ensures r.Success? ==>
      fresh(r.value) && EncryptSpec(c, plaintext, myPrivateKey, recipientPublicKeyBytes, randomBytes) == Success(r.value[..])
    ensures r.Failure? ==>
      EncryptSpec(c, plaintext, myPrivateKey, recipientPublicKeyBytes, randomBytes) == Failure(r.error)
  {
    var symmetricKey := SessionKey(c, myPrivateKey, recipientPublicKeyBytes);
    if symmetricKey.Failure? {
      return Failure(symmetricKey.error);
    }
    var iv := new byte[NonceSize];
    Buffers.Fill(iv, randomBytes);
    var encoded := c.utf8Encode(plaintext);
    var dataToEncrypt := new byte[|encoded|](i requires 0 <= i < |encoded| => encoded[i]);
    assert dataToEncrypt[..] == encoded;
    var ciphertext := new byte[dataToEncrypt.Length];
    var tag := new byte[TagSize];
    var sealed := c.seal(symmetricKey.value, iv[..], dataToEncrypt[..]);
    Buffers.Fill(ciphertext, sealed.ciphertext);
    Buffers.Fill(tag, sealed.tag);

    var result := CopyEnvelope(iv, ciphertext, tag);
    assert EncryptSpec(c, plaintext, myPrivateKey, recipientPublicKeyBytes, randomBytes)
        == Success(Envelope.Assemble(randomBytes, sealed.ciphertext, sealed.tag));
    r := Success(result);
  }

  /**
   * The last step of Encrypt: a buffer of the three lengths' sum, with the
   * nonce, the ciphertext and the tag block-copied into it one after another.
   */
  method CopyEnvelope(iv: array<byte>, ciphertext: array<byte>, tag: array<byte>) returns (result: array<byte>)
    ensures fresh(result)
    ensures result[..] == Envelope.Assemble(iv[..], ciphertext[..], tag[..])
  {
    result := new byte[iv.Length + ciphertext.Length + tag.Length];
    ghost var s0 := result[..];
    Buffers.BlockCopy(iv, 0, result, 0, iv.Length);
    ghost var s1 := result[..];
    Buffers.BlockCopy(ciphertext, 0, result, iv.Length, ciphertext.Length);
    ghost var s2 := result[..];
    Buffers.BlockCopy(tag, 0, result, iv.Length + ciphertext.Length, tag.Length);
    Buffers.CopiesConcatenate(s0, s1, s2, result[..], iv[0..0 + iv.Length], ciphertext[0..0 + ciphertext.Length],
                              tag[0..0 + tag.Length]);
    assert iv[0..0 + iv.Length] == iv[..];
    assert ciphertext[0..0 + ciphertext.Length] == ciphertext[..];
    assert tag[0..0 + tag.Length] == tag[..];
  }

  /**
   * Decrypt: derive the key, copy the first 12 bytes into the nonce, the
   * last 16 into the tag and the rest into the ciphertext (each copy fails
   * on an input too short for it), then open and decode.
   */
  method Decrypt(c: Crypto, encryptedData: array<byte>, myPrivateKey: seq<byte>, senderPublicKeyBytes: seq<byte>)
    returns (r: Result<string, CryptoError>)
    requires c.Sound()
    ensures r == DecryptSpec(c, encryptedData[..], myPrivateKey, senderPublicKeyBytes)
  {
    var symmetricKey := SessionKey(c, myPrivateKey, senderPublicKeyBytes);
    if symmetricKey.Failure? {
      return Failure(symmetricKey.error);
    }
    var iv := new byte[NonceSize];
    if !Buffers.CopyInRange(encryptedData.Length, 0, iv.Length, 0, iv.Length) {
      return Failure(NonceOutOfRange);
    }
    Buffers.BlockCopy(encryptedData, 0, iv, 0, iv.Length);
    assert iv[..] == encryptedData[..NonceSize];
    var tag := new byte[TagSize];
    if !Buffers.CopyInRange(encryptedData.Length, encryptedData.Length - tag.Length, tag.Length, 0, tag.Length) {
      return Failure(TagOffsetNegative);
    }
    Buffers.BlockCopy(encryptedData, encryptedData.Length - tag.Length, tag, 0, tag.Length);
    assert tag[..] == encryptedData[encryptedData.Length - TagSize..];
    var size := encryptedData.Length - iv.Length - tag.Length;
    if size < 0 {
      return Failure(CiphertextSizeNegative);
    }
    var ciphertext := new byte[size];
    Buffers.BlockCopy(encryptedData, iv.Length, ciphertext, 0, ciphertext.Length);
    assert ciphertext[..] == encryptedData[NonceSize..encryptedData.Length - TagSize];
    assert Envelope.Split(encryptedData[..]) == Envelope.Parts(iv[..], ciphertext[..], tag[..]);

    var decrypted := c.open(symmetricKey.value, iv[..], ciphertext[..], tag[..]);
    if decrypted.None? {
      return Failure(AuthenticationFailed);
    }
    var plaintextBytes := new byte[ciphertext.Length];
    Buffers.Fill(plaintextBytes, decrypted.value);
    r := Success(c.utf8Decode(plaintextBytes[..]));
  }

  /** The session key exists exactly when both keys import and lie on one curve. */
  lemma SessionKeyDefined(c: Crypto, myPrivateKey: seq<byte>, peerPublicKey: seq<byte>)
    requires c.Sound()
    ensures SessionKey(c, myPrivateKey, peerPublicKey).Success? <==>
      && c.importPkcs8(myPrivateKey).Some?
      && c.importSpki(peerPublicKey).Some?
      && c.importPkcs8(myPrivateKey).value.curve == c.importSpki(peerPublicKey).value.curve
    ensures SessionKey(c, myPrivateKey, peerPublicKey).Success? ==>
      |SessionKey(c, myPrivateKey, peerPublicKey).value| == DigestSize
  {
  }

  /**
   * Both ends of a session derive the same AES key: Alice from her private
   * key and Bob's public key, Bob from his private key and Alice's public key.
   */
  lemma SessionKeysAgree(c: Crypto, alice: seq<byte>, bob: seq<byte>)
    requires c.Sound()
    ensures var a := GenerateNewKeyPair(c, alice);
      var b := GenerateNewKeyPair(c, bob);
      && SessionKey(c, a.privateKey, b.publicKey).Success?
      && SessionKey(c, a.privateKey, b.publicKey) == SessionKey(c, b.privateKey, a.publicKey)
  {
    var ka, kb := PrivateKey(NistP256, alice), PrivateKey(NistP256, bob);
    assert c.deriveKeyMaterial(ka, c.publicOf(kb)) == c.deriveKeyMaterial(kb, c.publicOf(ka));
    assert c.publicOf(kb).curve == NistP256;
  }

  /** A successful Encrypt is nonce, ciphertext as long as the UTF-8 bytes, and 16-byte tag. */
  lemma EncryptLayout(c: Crypto, plaintext: string, myPrivateKey: seq<byte>, recipientPublicKey: seq<byte>,
                      nonce: seq<byte>)
    requires c.Sound()
    requires |nonce| == NonceSize
    requires EncryptSpec(c, plaintext, myPrivateKey, recipientPublicKey, nonce).Success?
    ensures var e := EncryptSpec(c, plaintext, myPrivateKey, recipientPublicKey, nonce).value;
      var sealed := c.seal(SessionKey(c, myPrivateKey, recipientPublicKey).value, nonce, c.utf8Encode(plaintext));
      && |e| == |c.utf8Encode(plaintext)| + Envelope.Overhead
      && e[..NonceSize] == nonce
      && e[NonceSize..|e| - TagSize] == sealed.ciphertext
      && e[|e| - TagSize..] == sealed.tag
  {
    var sealed := c.seal(SessionKey(c, myPrivateKey, recipientPublicKey).value, nonce, c.utf8Encode(plaintext));
    Envelope.AssembleLayout(nonce, sealed.ciphertext, sealed.tag);
  }

  /** Encrypt fails only because of the keys, never because of the plaintext or the nonce. */
  lemma EncryptFailsOnlyOnKeys(c: Crypto, plaintext: string, myPrivateKey: seq<byte>, recipientPublicKey: seq<byte>,
                               nonce: seq<byte>)
    ensures EncryptSpec(c, plaintext, myPrivateKey, recipientPublicKey, nonce).Failure? <==>
      SessionKey(c, myPrivateKey, recipientPublicKey).Failure?
    ensures EncryptSpec(c, plaintext, myPrivateKey, recipientPublicKey, nonce).Failure? ==>
      EncryptSpec(c, plaintext, myPrivateKey, recipientPublicKey, nonce).error
        in {InvalidPrivateKey, InvalidPublicKey, KeyAgreementFailed}
  {
  }

  /** No input shorter than nonce plus tag decrypts; with usable keys it is reported as malformed. */
  lemma DecryptRejectsShortInput(c: Crypto, encryptedData: seq<byte>, myPrivateKey: seq<byte>, senderPublicKey: seq<byte>)
    requires |encryptedData| < Envelope.Overhead
    ensures DecryptSpec(c, encryptedData, myPrivateKey, senderPublicKey).Failure?
    ensures SessionKey(c, myPrivateKey, senderPublicKey).Success? ==>
      var e := DecryptSpec(c, encryptedData, myPrivateKey, senderPublicKey).error;
      && IsMalformed(e)
      && (e == NonceOutOfRange <==> |encryptedData| < NonceSize)
      && (e == TagOffsetNegative <==> NonceSize <= |encryptedData| < TagSize)
      && (e == CiphertextSizeNegative <==> TagSize <= |encryptedData|)
  {
  }

  /**
   * Decrypt returns text only for an envelope that sealing produced: its
   * ciphertext and tag are exactly the seal, under the session key and the
   * envelope's own nonce, of bytes that decode to that text.
   */
  lemma DecryptAcceptsOnlySealed(c: Crypto, encryptedData: seq<byte>, myPrivateKey: seq<byte>, senderPublicKey: seq<byte>)
    requires c.Sound()
    requires DecryptSpec(c, encryptedData, myPrivateKey, senderPublicKey).Success?
    ensures SessionKey(c, myPrivateKey, senderPublicKey).Success?
    ensures |encryptedData| >= Envelope.Overhead
    ensures var key := SessionKey(c, myPrivateKey, senderPublicKey).value;
      var nonce := encryptedData[..NonceSize];
      exists plaintextBytes: seq<byte> ::
        && encryptedData == Envelope.Assemble(nonce, c.seal(key, nonce, plaintextBytes).ciphertext,
                                              c.seal(key, nonce, plaintextBytes).tag)
        && DecryptSpec(c, encryptedData, myPrivateKey, senderPublicKey).value == c.utf8Decode(plaintextBytes)
  {
    var key := SessionKey(c, myPrivateKey, senderPublicKey).value;
    var parts := Envelope.Split(encryptedData);
    var plaintextBytes := c.open(key, parts.nonce, parts.ciphertext, parts.tag).value;
    assert c.seal(key, parts.nonce, plaintextBytes) == Sealed(parts.ciphertext, parts.tag);
    Envelope.AssembleSplit(encryptedData);
  }

  /**
   * Replacing the tag of an envelope that decrypts by any other 16 bytes makes
   * Decrypt fail with AuthenticationFailed: under one key and nonce only one
   * tag verifies for a given ciphertext.
   */
  lemma {:induction false} DecryptRejectsForgedTag(c: Crypto, encryptedData: seq<byte>, forgedTag: seq<byte>,
                                                   myPrivateKey: seq<byte>, senderPublicKey: seq<byte>)
    requires c.Sound()
    requires DecryptSpec(c, encryptedData, myPrivateKey, senderPublicKey).Success?
    requires |forgedTag| == TagSize
    requires forgedTag != encryptedData[|encryptedData| - TagSize..]
    ensures DecryptSpec(c, encryptedData[..|encryptedData| - TagSize] + forgedTag, myPrivateKey, senderPublicKey)
      == Failure(AuthenticationFailed)
  {
    var key := SessionKey(c, myPrivateKey, senderPublicKey).value;
    var parts := Envelope.Split(encryptedData);
    var forged := encryptedData[..|encryptedData| - TagSize] + forgedTag;
    var forgedParts := Envelope.Split(forged);
    assert forged[..|forged| - TagSize] == encryptedData[..|encryptedData| - TagSize];
    assert forgedParts == Envelope.Parts(parts.nonce, parts.ciphertext, forgedTag);
    var genuine := c.open(key, parts.nonce, parts.ciphertext, parts.tag).value;
    assert c.seal(key, parts.nonce, genuine) == Sealed(parts.ciphertext, parts.tag);
  }

  /**
   * The round trip across the two sides of a session: what Alice encrypts
   * for Bob, Bob decrypts with his private key and Alice's public key. The
   * archived-history path goes through the same two operations.
   */
  lemma RoundTrip(c: Crypto, plaintext: string, alice: seq<byte>, bob: seq<byte>, nonce: seq<byte>)
    requires c.Sound()
    requires |nonce| == NonceSize
    ensures var a := GenerateNewKeyPair(c, alice);
      var b := GenerateNewKeyPair(c, bob);
      var e := EncryptSpec(c, plaintext, a.privateKey, b.publicKey, nonce);
      && e.Success?
      && DecryptSpec(c, e.value, b.privateKey, a.publicKey) == Success(plaintext)
  {
    var a := GenerateNewKeyPair(c, alice);
    var b := GenerateNewKeyPair(c, bob);
    SessionKeysAgree(c, alice, bob);
    var key := SessionKey(c, a.privateKey, b.publicKey).value;
    var bytes := c.utf8Encode(plaintext);
    var sealed := c.seal(key, nonce, bytes);
    Envelope.SplitAssemble(nonce, sealed.ciphertext, sealed.tag);
    assert c.open(key, nonce, sealed.ciphertext, sealed.tag) == Some(bytes);
  }

  /**
   * Two encryptions under different nonces give different envelopes, and
   * both decrypt to the same plaintext.
   */
  lemma DistinctNoncesDistinctEnvelopes(c: Crypto, plaintext: string, alice: seq<byte>, bob: seq<byte>,
                                        nonce1: seq<byte>, nonce2: seq<byte>)
    requires c.Sound()
    requires |nonce1| == NonceSize && |nonce2| == NonceSize && nonce1 != nonce2
    ensures var a := GenerateNewKeyPair(c, alice);
      var b := GenerateNewKeyPair(c, bob);
      var e1 := EncryptSpec(c, plaintext, a.privateKey, b.publicKey, nonce1);
      var e2 := EncryptSpec(c, plaintext, a.privateKey, b.publicKey, nonce2);
      && e1.Success? && e2.Success? && e1.value != e2.value
      && DecryptSpec(c, e1.value, b.privateKey, a.publicKey) == DecryptSpec(c, e2.value, b.privateKey, a.publicKey)
  {
    var a := GenerateNewKeyPair(c, alice);
    var b := GenerateNewKeyPair(c, bob);
    RoundTrip(c, plaintext, alice, bob, nonce1);
    RoundTrip(c, plaintext, alice, bob, nonce2);
    EncryptLayout(c, plaintext, a.privateKey, b.publicKey, nonce1);
    EncryptLayout(c, plaintext, a.privateKey, b.publicKey, nonce2);
  }
}
