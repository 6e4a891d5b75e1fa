# SecureCommECC core in Dafny

A model of the three sequential pieces of the SecureCommECC chat server, with proofs of what each promises.

- **The ECC service** (`Services/ECCService.cs`).
  - Key pairs are P-256 keys exported as PKCS#8 and SubjectPublicKeyInfo.
  - The AES key is the SHA-256 digest of the key material `ECDiffieHellman.DeriveKeyMaterial` returns.
  - `Encrypt` builds the envelope `nonce (12 bytes) ‖ ciphertext ‖ tag (16 bytes)` in byte arrays with `Buffer.BlockCopy`.
  - `Decrypt` takes the envelope apart the same way, and fails on short input or on a tag that does not verify.
  - The history-archive path of the controller reuses these two operations around base64, so one envelope model covers live messages and archived histories.
- **The relay hub** (`Hubs/ChatHub.cs`).
  - It keeps a directory from public key to connection id.
  - `Register` overwrites the entry for a key.
  - `OnDisconnectedAsync` finds one key of the closing connection by reverse lookup and removes it.
  - `SendPrivateMessage` resolves the sender by reverse lookup and the recipient by key, then delivers at most once.
- **The message categoriser** (`models/AIService.cs`).
  - It runs six keyword-group tests in a fixed order, then a length band (above 1000 characters, or in (500, 1000]).
  - It adds a default label when nothing else was added, and joins the labels with `" | "`.

## Files

| file | module | contents |
|---|---|---|
| `wrappers.dfy` | `Wrappers` | `Option`, and a failure-compatible `Result` for the exceptions the service throws |
| `primitives.dfy` | `Primitives` | `byte`, the sizes 12/16/32, the key types, and the library calls as fields of a `Crypto` value |
| `envelope.dfy` | `Envelope` | the envelope layout, `Assemble`/`Split`, and their inverse lemmas |
| `buffers.dfy` | `Buffers` | `Buffer.BlockCopy` and output-buffer filling as array methods |
| `ecc_service.dfy` | `EccService` | the specification functions and the imperative `Encrypt`/`Decrypt`, with their properties |
| `chat_hub.dfy` | `Hubs` | the `ChatHub` class (directory map and outbox) and its properties |
| `ai_service.dfy` | `AiService` | the category list, the labels, the join, and `AnalyzeMessage` |
| `toy_crypto.dfy` | `ToyCrypto` | an insecure concrete `Crypto` showing that the assumed library properties are consistent |

### The cryptographic library

The elliptic-curve, hash, AEAD and UTF-8 calls are not verified. Each is a function-valued field of `Primitives.Crypto`. The ghost predicate `Crypto.Sound()` lists what the model assumes of them:

- import reads back export (section 5 of RFC 5208, section 4.1.2.7 of RFC 5280);
- ECDH is defined exactly for two keys on the same curve, and is symmetric between the two sides;
- SHA-256 digests are 32 bytes;
- GCM ciphertext is as long as the plaintext, and the tag is 16 bytes;
- open inverts seal;
- under one key and nonce the ciphertext determines the plaintext (GCM encrypts in counter mode), so only one tag verifies for a ciphertext;
- open succeeds only on what seal produced;
- UTF-8 decoding inverts encoding.

Every property that depends on the library requires `c.Sound()`. `ToyCrypto.SoundIsSatisfiable` proves that some `Crypto` meets all of these at once, so no lemma holds vacuously.

### Modelling choices

- **Exceptions.** A thrown exception is a `Failure` of `EccService.CryptoError`, with one kind per throwing call:
  - key import;
  - key agreement;
  - the three `BlockCopy`/allocation failures on short input;
  - tag mismatch.
- **Specification functions.** `EncryptSpec` and `DecryptSpec` state what the operations compute. The array methods `Encrypt` and `Decrypt` are proved to return exactly that.
- **Randomness.** The random nonce and the random private scalar are parameters.
- **`CopyEnvelope`.** It is the last four statements of `Encrypt` (allocate the result, three block copies) as a method of its own.
- **`AddIfMatched`.** It is one of `AnalyzeMessage`'s six identical test-and-add statements.
- **The hub.** It is sequential.
  - The caller's connection id (the hub context) is a parameter of each operation.
  - `SendAsync` appends a `Delivery` to `outbox`.
  - `FirstOrDefault` over the unordered dictionary is an arbitrary choice (`:|`) of a key whose value is the connection.
- **The keyword regular expressions.** They are one abstract `Detector` parameter.
- **`message.Length`.** It counts UTF-16 code units (`Utf16Length`).

### Where the intended behaviour and the code differ

The model follows the code in each case.

- **Disconnect.** A disconnect is meant to remove every entry of the connection. The code removes only the one key `FirstOrDefault` finds (Hubs/ChatHub.cs:13-16).
  - `Hubs.DisconnectIdempotent` therefore needs the connection to have registered at most one key.
  - A connection that registered two keys keeps one after a disconnect (`Hubs.DisconnectRemovesExactlyOne`).
- **Error kinds.** Unparsable keys and short input are meant to be one "malformed" error. The code throws from different library calls, and these are kept apart:
  - key errors: `InvalidPrivateKey`, `InvalidPublicKey`, `KeyAgreementFailed`;
  - short input: `NonceOutOfRange`, `TagOffsetNegative`, `CiphertextSizeNegative`.
- **Order of checks.** Decrypt parses the keys before it looks at the envelope's length, so bad keys win over short input.

## Model

| member | source | states |
|---|---|---|
| EccService.GenerateNewKeyPair | Services/ECCService.cs:9-15 | the exported private key imports back as the P-256 key with the drawn scalar, and the exported public key imports back as its public half |
| EccService.DeriveSymmetricKeyFromSecret | Services/ECCService.cs:72-76 | the AES key is the SHA-256 digest of the shared secret, so it is always 32 bytes (an AES-256 key) |
| EccService.SessionKeyDefined | Services/ECCService.cs:19-26 | a session key exists exactly when the private key parses as PKCS#8, the public key parses as SubjectPublicKeyInfo and both lie on one curve; it is 32 bytes |
| EccService.SessionKeysAgree | Services/ECCService.cs:25-26 | for two generated key pairs, Alice's key from (her private, Bob's public) equals Bob's from (his private, Alice's public), and it exists |
| EccService.Encrypt | Services/ECCService.cs:17-44 | the array method returns a fresh array holding exactly `EncryptSpec`'s envelope (nonce, seal of the UTF-8 bytes under the session key, tag), or fails exactly as `EncryptSpec` does |
| EccService.CopyEnvelope | Services/ECCService.cs:38-41 | a fresh result array of the three lengths' sum holds nonce, ciphertext and tag back to back after the three block copies |
| EccService.EncryptLayout | Services/ECCService.cs:30-41 | a successful envelope is the UTF-8 length plus 28 bytes long; bytes [0,12) are the nonce, the middle is the ciphertext, the last 16 are the tag |
| EccService.EncryptFailsOnlyOnKeys | Services/ECCService.cs:19-26 | Encrypt fails exactly when the session key cannot be derived, and then only with a key error, never because of the plaintext or the nonce |
| EccService.Decrypt | Services/ECCService.cs:46-70 | the array method returns exactly `DecryptSpec`: key errors first, then the three short-input failures, then the tag check, then the UTF-8 decoding of the opened bytes |
| EccService.DecryptRejectsShortInput | Services/ECCService.cs:57-62 | every input shorter than 28 bytes fails; with usable keys the error is the nonce copy below 12 bytes, the negative tag offset in [12,16) and the negative ciphertext size in [16,28) |
| EccService.DecryptAcceptsOnlySealed | Services/ECCService.cs:57-69 | text is returned only for at least 28 bytes that are exactly nonce, seal of some bytes under the session key and that nonce, and tag, and the text is those bytes decoded; any other input fails |
| EccService.DecryptRejectsForgedTag | Services/ECCService.cs:57-67 | an envelope that decrypts, with its last 16 bytes replaced by any other 16 bytes, fails with AuthenticationFailed |
| EccService.RoundTrip | Services/ECCService.cs:17-70 | what Alice encrypts for Bob with any 12-byte nonce, Bob decrypts with his private key and Alice's public key to the same plaintext |
| EccService.DistinctNoncesDistinctEnvelopes | Services/ECCService.cs:30-41 | two encryptions of one plaintext under different nonces give different envelopes that decrypt to the same result |
| Envelope.Split | Services/ECCService.cs:57-62 | on at least 28 bytes the nonce is 12 bytes, the tag 16 and the ciphertext the remaining length |
| Envelope.AssembleLayout | Services/ECCService.cs:38-41 | the concatenation is the ciphertext plus 28 bytes, with each field at its fixed offset |
| Envelope.SplitAssemble | Services/ECCService.cs:57-62 | splitting nonce ‖ ciphertext ‖ tag returns exactly nonce, ciphertext and tag |
| Envelope.AssembleSplit | Services/ECCService.cs:57-62 | re-concatenating the three slices of any buffer of at least 28 bytes gives the buffer back |
| Buffers.BlockCopy | Services/ECCService.cs:39-41 | the destination holds its old prefix, the copied source range, and its old suffix; nothing else changes |
| Buffers.Fill | Services/ECCService.cs:31-36 | an output buffer written by the random source or by AES-GCM holds exactly the bytes written |
| Buffers.CopiesConcatenate | Services/ECCService.cs:38-41 | three block copies placing nonce, ciphertext and tag end to end into a buffer of their total length leave exactly their concatenation |
| Hubs.ChatHub.constructor | Hubs/ChatHub.cs:9 | the directory starts empty and nothing has been delivered |
| Hubs.ChatHub.FindKeyOf | Hubs/ChatHub.cs:13 | the reverse lookup finds nothing exactly when no key maps to the connection, and otherwise one key that does |
| Hubs.ChatHub.Register | Hubs/ChatHub.cs:21-25 | the directory becomes the old one with the key mapped to the caller's connection; nothing is delivered |
| Hubs.ChatHub.OnDisconnectedAsync | Hubs/ChatHub.cs:11-19 | when some key maps to the connection, exactly one such key is removed and nothing else changes; otherwise the directory is unchanged; nothing is delivered |
| Hubs.ChatHub.SendPrivateMessage | Hubs/ChatHub.cs:27-36 | the directory is unchanged and earlier deliveries are kept; nothing is added when the caller has no key or the recipient is unknown, otherwise one delivery of the message to the recipient's connection naming a key of the caller |
| Hubs.RegisterOverwrites | Hubs/ChatHub.cs:23 | after Register the key maps to the new connection, the key set gains only that key, and every other entry keeps its connection |
| Hubs.RegisterLastWins | Hubs/ChatHub.cs:23 | registering one key from two connections equals registering it from the later one alone, and leaves one entry for the key |
| Hubs.DisconnectRemovesExactlyOne | Hubs/ChatHub.cs:13-16 | a disconnect that removes a key shrinks the directory by exactly one entry and leaves the connection's other keys; no surviving entry changes |
| Hubs.DisconnectIdempotent | Hubs/ChatHub.cs:11-19 | for a connection with at most one key, one disconnect leaves no key for it and a second disconnect changes nothing |
| Hubs.StaleDisconnectKeepsKey | Hubs/ChatHub.cs:13-23 | after a key is re-registered from a newer connection, the older connection's lookup does not find it and disconnecting the older connection keeps it mapped to the newer one |
| Hubs.SendAtMostOnce | Hubs/ChatHub.cs:29-35 | a send delivers at most once, exactly when the caller has a key and the recipient is registered, to the recipient's current connection, via ReceiveMessage, with the message unchanged and a sender key of the caller's connection |
| AiService.AnalyzeMessage | models/AIService.cs:7-51 | the method's result is the labels of `Categories` joined with the separator (space, vertical bar, space) |
| AiService.AddIfMatched | models/AIService.cs:14-36 | one test-and-add statement appends the group's label exactly when its test matches |
| AiService.MatchedCategoriesAppend | models/AIService.cs:14-36 | running two runs of tests one after the other finds the categories of each, in order |
| AiService.MatchedCategoriesOfGroups | models/AIService.cs:14-36 | the six tests contribute, in order, each group's category exactly when its test matches |
| AiService.MatchedCategoriesAscending | models/AIService.cs:14-36 | tests run in the fixed order yield only group categories, in strictly increasing order |
| AiService.MatchedCategoriesContain | models/AIService.cs:14-36 | a group's category is found exactly when the group is tested and its test matches |
| AiService.GroupsInOrder | models/AIService.cs:14-36 | the six groups are tested once each, in the order Financial, Confidential, PII, Health, Threat, Urgent |
| AiService.CategoriesOrdered | models/AIService.cs:14-47 | the categories come in the fixed order (the six groups, then the length label), none repeats, and there are between 1 and 7 |
| AiService.CategoriesLabels | models/AIService.cs:14-47 | a group label appears iff its test matches; the long label iff above 1000 characters; the medium label iff in (500, 1000]; the default iff nothing matched and at most 500 characters, and then it is the only label |
| AiService.LabelsOfCategories | models/AIService.cs:9-47 | the label list is the six tests' labels then the length label, or the default label alone when that is empty |
| AiService.LabelTextPlain | models/AIService.cs:16-47 | every label is non-empty and contains no vertical bar |
| AiService.JoinSplit | models/AIService.cs:50 | splitting a separator join of parts without a vertical bar at each separator gives the parts back |
| AiService.AnalyzeMessageOutput | models/AIService.cs:46-50 | the output is never empty, splits back into exactly the label list, and is exactly "General/Informational" when no group matches and the message is at most 500 characters |

## Left out

- The cryptography is not modelled: ECDH on P-256, SHA-256, AES-GCM, and PKCS#8/SubjectPublicKeyInfo parsing. These are library calls, and their properties are the assumptions in `Crypto.Sound()`. They are not proved.
- Rejection of a changed ciphertext, and of a foreign key pair, is not proved: a changed ciphertext with an unchanged tag, or another key, fails only with overwhelming probability, which needs a probabilistic forgery bound. The model proves the deterministic parts instead. A changed tag always fails (`EccService.DecryptRejectsForgedTag`), and Decrypt returns text only for an envelope that is a genuine seal (`EccService.DecryptAcceptsOnlySealed`).
- Randomness is not modelled. `RandomNumberGenerator.Fill` and key generation's random scalar are parameters, so nonce freshness is not proved. `EccService.DistinctNoncesDistinctEnvelopes` assumes the two nonces differ.
- The AES-GCM constructor's key-size check is not modelled: the key is always a 32-byte SHA-256 digest.
- Invalid UTF-8 is not modelled. `Encoding.UTF8` is abstract, so its replacement of invalid bytes is left out. Dafny strings cannot hold lone surrogates, so the round-trip assumption covers every string the model can express.
- Null arguments and the `using`/`Dispose` resource handling are not modelled. Every value in the model is non-null.
- .NET regular-expression semantics are not modelled: Unicode word boundaries, `\s+` and case-insensitive matching. The six tests are one abstract `Detector`.
- `ConcurrentDictionary` concurrency is not modelled, including the race between the reverse scan and `Register`. The hub is sequential.
- The SignalR transport is not modelled. `Clients.Client(...).SendAsync` is a record in `outbox`, and `base.OnDisconnectedAsync` and the returned tasks are not modelled.
- Hubs.ChatHub.OnDisconnectedAsync: returns the key it removed as an out-parameter, which the source does not, so that its contract can name the removed key.
- `Controllers/ECCController.cs` is not part of this model (HTTP binding, base64 and the catch-all `BadRequest`). Neither are `Program.cs` (service configuration) or `wwwroot/app.js` (the browser client and its archive storage).
