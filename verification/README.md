# utl crypto framing and generic helpers, in Dafny

This project models the message-framing and validation layer that `crypto.go` puts
around the NaCl primitives, and the small self-contained helpers of `generic.go`.

- `Nacl` (nacl.dfy): the key and nonce sizes (`KeySize` = 32, `NonceSize` = 24, the
  constants crypto.go declares and the sizes box and secretbox use) and the library
  primitives the layer calls. `secretbox` is a record of
  two functions, `seal` and `open`. `box` is a key agreement (`publicOf`, `agree`, Go's
  `box.Precompute`) followed by secretbox under the shared key. The cryptography itself is
  not modelled. `Valid()` collects what the library promises:
  - opening what was sealed under the same key and nonce returns the message;
  - sealing adds a 16-byte tag;
  - open succeeds only on a box exactly one tag longer than its result;
  - both parties of a box exchange derive the same shared key.
  Every theorem that relies on these promises requires `Valid()`. Nothing is assumed.
  `ToySecretBox` and `ToyBox` are deliberately insecure stand-ins, proved `Valid()`, that
  show the promises can all hold at once. The secretbox inside a box and the secretbox
  given to `EncryptBytes`/`DecryptBytes` are independent records.
- `Crypto` (crypto.dfy): the error values and the operations. Wire layout is `nonce (24 bytes) || ciphertext`. Go's built-in `copy` into
  the fixed-size `key`, `nonce` and `out` buffers is the array method `Copy`. Operations
  return `Result<_, Error>` where Go returns `(value, error)`.
- `Generic` (generic.dfy): `AreStringSliceSame` as a loop, `MinUint16`, `MaxUint16`, and
  the zero-divisor guard of `Percent`.
- `Wrappers` (wrappers.dfy): `Option` and `Result`.

Entropy, and other calls that leave the model, are parameters:
- the nonce of `SealBytes` and `EncryptBytes` (read from `crypto/rand` in the source);
- the outcome of reading the private key in `GenerateCryptoKeys` (`box.GenerateKey` reads
  it from `crypto/rand`): either the bytes read or a failed read;
- the base64 decoder of `CryptoKeyFromBase64`, a function from text to bytes or the
  offset of the corrupt input;
- the floating-point branch of `Percent`.

Two error paths, as the code has them:
- a key text that is not base64 returns the decoder's own error (its offset);
- an input shorter than the nonce is a precondition of `OpenSealedBytes` and
  `DecryptBytes`, not an error result, because the source asserts its length and the
  `buf[NonceSize:]` slice would panic.

## Model

| member | source | states |
|---|---|---|
| `Crypto.KeyFromText` | crypto.go:35-44 | decode failure returns that error and no key; a key exactly when the decoded length is 32, else InvalidCryptoKey; the key equals the decoded bytes byte for byte |
| `Crypto.CryptoKeyFromBase64` | crypto.go:34-45 | decodes, checks the length and copies the bytes into a fixed-size key, with exactly the result KeyFromText specifies |
| `Crypto.KeyFromTextRoundTrip` | crypto.go:39-44 | any 32 bytes whose text the decoder reads back decode to exactly those bytes |
| `Crypto.KeyFromTextWrongLength` | crypto.go:39-41 | text decoding to any length other than 32 is refused with InvalidCryptoKey |
| `Crypto.Copy` | crypto.go:43 | Go `copy`: copies min(len(dst), len(src)) bytes and leaves the rest of dst unchanged |
| `Crypto.Frame` | crypto.go:52 | a framed message is 24 + len(c) bytes, the nonce then the ciphertext |
| `Crypto.NonceOf` | crypto.go:58-60 | the first 24 bytes of a message are the nonce that reframes it with its tail |
| `Crypto.FrameSplit` | crypto.go:57-61 | splitting a framed message at NonceSize gives back its nonce and its ciphertext |
| `Crypto.FailClosed` | crypto.go:62-65 | a plaintext exactly when the open succeeded, otherwise the given error and no plaintext |
| `Crypto.GenerateCryptoKeys` | crypto.go:29-31 | fails exactly when the entropy read fails; otherwise the private key is the bytes read and the public key is its partner |
| `Crypto.SealBytes` | crypto.go:49-53 | never fails; the first 24 bytes are the nonce, the rest the box ciphertext; length 24 + 16 + len(buf) |
| `Crypto.OpenSealedBytes` | crypto.go:57-66 | opens input[24:] with input[0:24] as nonce; fails closed with CantOpenSealedBytes; input shorter than 40 bytes always fails |
| `Crypto.EncryptBytes` | crypto.go:69-75 | never fails; the first 24 bytes are the nonce, the rest the secretbox ciphertext; length 24 + 16 + len(in) |
| `Crypto.DecryptBytes` | crypto.go:78-87 | decrypts input[24:] with input[0:24] as nonce; fails closed with CantDecryptBytes; input shorter than 40 bytes always fails |
| `Crypto.SealOpenExchange` | crypto.go:29-66 | for generated pairs A and B, opening with A's public and B's private key what A sealed for B returns the plaintext |
| `Crypto.EncryptDecryptRoundTrip` | crypto.go:69-87 | decrypting what was encrypted under the same key returns the plaintext |
| `Nacl.Box.Seal` | crypto.go:52 | box ciphertext is one tag longer than the message |
| `Nacl.Box.Open` | crypto.go:61 | a successful box open returns a message one tag shorter than the box |
| `Nacl.Box.SealOpen` | crypto.go:52-61 | a box sealed by A for B opens with A's public key and B's private key |
| `Generic.AreStringSliceSame` | generic.go:19-29 | false when the lengths differ; true exactly when the slices are equal element by element |
| `Generic.MinUint16` | generic.go:67-72 | at most both arguments and equal to one of them |
| `Generic.MaxUint16` | generic.go:75-80 | at least both arguments and equal to one of them |
| `Generic.Percent` | generic.go:46-51 | a zero divisor gives 0 for every dividend |

## Left out

- Cryptography: Curve25519, XSalsa20 and Poly1305 are abstract functions. Tamper detection and wrong-key rejection are not modelled beyond "open may fail".
- Randomness: nonces and the outcome of reading private-key entropy are parameters. Nonce uniqueness is probabilistic and is not stated.
- The ignored error of `io.ReadFull` when reading the nonce (crypto.go:51, crypto.go:71) is not modelled: a short read of entropy is not a logic path here.
- Crypto.GenerateCryptoKeys: a failed entropy read is the single value EntropyReadFailed, not the reader's own error value that `box.GenerateKey` passes on.
- base64 decoding (RFC 4648, section 4) is a parameter, not modelled.
- The `_log` package: logging is left out; `_log.Assert` is a precondition; `_log.Fail` is modelled as returning the error value. Its wrapping of the error (for instance with the key text) and the numeric codes 100-102 are not modelled.
- Keys are returned as immutable 32-byte values, not as pointers to arrays, so aliasing of the returned key is not modelled.
- Generic.Percent: the nonzero branch is float64 arithmetic and is a parameter; only the zero-divisor guard is stated.
- `Itoa`, `Atoi`, `HashBytes`, `HashString`, `Join` and `Clean` wrap `fmt`, `strconv`, MD5, FNV and `filepath`, library code that is not part of this model.
- `SendError` is a channel send (concurrency), not modelled.
- File and process helpers (`Execute`, `MoveFile`, `CopyFile`, `CopyFileWithJoin`, `DoesFileExist`, `IsDirectory`, `WriteFile`) are I/O, not modelled.
