/**
 * The framing and validation layer of crypto.go: key decoding, and the
 * `nonce || ciphertext` layout of sealed (box) and encrypted (secretbox) messages.
 * Randomness is a parameter: the nonce, and the private key of a generated pair.
 */
module Crypto {
  import opened Wrappers
  import opened Nacl

  /** The errors of this layer; a failed base64 decode carries the offset it stopped at. */
  datatype Error =
    | Base64Corrupt(offset: nat)
    | InvalidCryptoKey
    | CantOpenSealedBytes
    | CantDecryptBytes
    | EntropyReadFailed

  /** base64 decoding, left to the caller: the decoded bytes or the offending offset. */
  type Base64Decoder = string -> Result<Bytes, nat>

  datatype KeyPair = KeyPair(public: Key, private: Key)

  /** A message on the wire: the nonce, then what the cipher produced. */
  function Frame(nonce: Nonce, c: Bytes): (m: Bytes)
    ensures |m| == NonceSize + |c|
    ensures m[..NonceSize] == nonce && m[NonceSize..] == c
  {
    nonce + c
  }

  /** The nonce a framed message starts with. */
  function NonceOf(m: Bytes): (n: Nonce)
    requires |m| >= NonceSize
    ensures Frame(n, m[NonceSize..]) == m
  {
    m[..NonceSize]
  }

  /** Splitting a framed message gives back its nonce and its ciphertext. */
  lemma FrameSplit(nonce: Nonce, c: Bytes)
    ensures |Frame(nonce, c)| >= NonceSize
    ensures NonceOf(Frame(nonce, c)) == nonce && Frame(nonce, c)[NonceSize..] == c
  {
  }

  /** Fail-closed: a plaintext only from a successful open, otherwise `err` and nothing else. */
  function FailClosed(outcome: Option<Bytes>, err: Error): (r: Result<Bytes, Error>)
    ensures r.Success? <==> outcome.Some?
    ensures r.Success? ==> outcome == Some(r.value)
    ensures r.Failure? ==> r == Failure(err)
  {
    match outcome
    case Some(p) => Success(p)
    case None => Failure(err)
  }

  /** Go's built-in `copy`: copies min(len(dst), len(src)) bytes, leaves the rest of dst. */
  method Copy(dst: array<byte>, src: Bytes) returns (n: nat)
    modifies dst
    ensures n == if dst.Length < |src| then dst.Length else |src|
    ensures dst[..n] == src[..n]
    ensures dst[n..] == old(dst[n..])
  {
    n := if dst.Length < |src| then dst.Length else |src|;
    var i := 0;
    while i < n
      invariant 0 <= i <= n
      invariant dst[..i] == src[..i]
      invariant dst[i..] == old(dst[i..])
    {
      dst[i] := src[i];
      i := i + 1;
    }
  }

  /**
   * What decoding a textual key yields: a key exactly when the text decodes to KeySize
   * bytes, and then those bytes; otherwise the decode error, or InvalidCryptoKey for a
   * wrong length.
   */
  function KeyFromText(decode: Base64Decoder, key64: string): (r: Result<Key, Error>)
    ensures decode(key64).Failure? ==> r == Failure(Base64Corrupt(decode(key64).error))
    ensures decode(key64).Success? && |decode(key64).value| != KeySize ==> r == Failure(InvalidCryptoKey)
    ensures r.Success? <==> decode(key64).Success? && |decode(key64).value| == KeySize
    ensures r.Success? ==> r.value == decode(key64).value
  {
    match decode(key64)
    case Failure(offset) => Failure(Base64Corrupt(offset))
    case Success(buf) => if |buf| != KeySize then Failure(InvalidCryptoKey) else Success(buf)
  }

  /** CryptoKeyFromBase64: decodes, checks the length, and copies the bytes into a key. */
  method CryptoKeyFromBase64(decode: Base64Decoder, key64: string) returns (r: Result<Key, Error>)
    ensures r == KeyFromText(decode, key64)
  {
    var decoded := decode(key64);
    if decoded.Failure? {
      return Failure(Base64Corrupt(decoded.error));
    }
    var buf := decoded.value;
    if |buf| != KeySize {
      return Failure(InvalidCryptoKey);
    }
    var key := new byte[KeySize];
    var _ := Copy(key, buf);
    assert key[..] == key[..KeySize] == buf;
    return Success(key[..]);
  }

  /** Any 32 bytes, written as text the decoder reads back, decode to themselves. */
  lemma KeyFromTextRoundTrip(decode: Base64Decoder, encode: Bytes -> string, k: Key)
    requires decode(encode(k)) == Success(k)
    ensures KeyFromText(decode, encode(k)) == Success(k)
  {
  }

  /** Text that decodes to any length other than KeySize is refused as InvalidCryptoKey. */
  lemma KeyFromTextWrongLength(decode: Base64Decoder, encode: Bytes -> string, b: Bytes)
    requires decode(encode(b)) == Success(b)
    requires |b| != KeySize
    ensures KeyFromText(decode, encode(b)) == Failure(InvalidCryptoKey)
  {
  }

  /**
   * GenerateCryptoKeys: `entropy` is the outcome of reading KeySize random bytes. A failed
   * read is an error; otherwise the private key is the bytes read and the public key its
   * partner.
   */
  function GenerateCryptoKeys(box: Box, entropy: Option<Key>): (r: Result<KeyPair, Error>)
    ensures r.Success? <==> entropy.Some?
    ensures r.Failure? ==> r.error == EntropyReadFailed
    ensures r.Success? ==> r.value.private == entropy.value && box.IsKeyPair(r.value.public, r.value.private)
  {
    match entropy
    case None => Failure(EntropyReadFailed)
    case Some(private) => Success(KeyPair(box.publicOf(private), private))
  }

  /** SealBytes: never fails; the nonce, then the box ciphertext of `buf`. */
  function SealBytes(box: Box, nonce: Nonce, buf: Bytes, public: Key, private: Key): (r: Result<Bytes, Error>)
    ensures r.Success?
    ensures |r.value| >= NonceSize && r.value[..NonceSize] == nonce
    ensures r.value[NonceSize..] == box.Seal(nonce, buf, public, private)
    ensures box.Valid() ==> |r.value| == NonceSize + Overhead + |buf|
  {
    Success(Frame(nonce, box.Seal(nonce, buf, public, private)))
  }

  /**
   * OpenSealedBytes: opens the bytes after the nonce with the nonce in front; on failure
   * CantOpenSealedBytes and no plaintext.
   */
  method OpenSealedBytes(box: Box, buf: Bytes, public: Key, private: Key) returns (r: Result<Bytes, Error>)
    requires |buf| >= NonceSize
    ensures r == FailClosed(box.Open(buf[..NonceSize], buf[NonceSize..], public, private), CantOpenSealedBytes)
    ensures box.Valid() && |buf| < NonceSize + Overhead ==> r == Failure(CantOpenSealedBytes)
  {
    var nonce := new byte[NonceSize];
    var _ := Copy(nonce, buf[..NonceSize]);
    assert nonce[..] == nonce[..NonceSize] == buf[..NonceSize];
    var clear := box.Open(nonce[..], buf[NonceSize..], public, private);
    if clear.None? {
      return Failure(CantOpenSealedBytes);
    }
    return Success(clear.value);
  }

  /** EncryptBytes: never fails; the nonce, then the secretbox ciphertext of `input`. */
  method EncryptBytes(sb: SecretBox, nonce: Nonce, input: Bytes, key: Key) returns (r: Result<Bytes, Error>)
    ensures r.Success?
    ensures |r.value| >= NonceSize && r.value[..NonceSize] == nonce
    ensures r.value[NonceSize..] == sb.seal(key, nonce, input)
    ensures sb.Valid() ==> |r.value| == NonceSize + Overhead + |input|
  {
    var out := new byte[NonceSize];
    var _ := Copy(out, nonce);
    return Success(Frame(out[..], sb.seal(key, nonce, input)));
  }

  /**
   * DecryptBytes: decrypts the bytes after the nonce with the nonce in front; on failure
   * CantDecryptBytes and no plaintext.
   */
  method DecryptBytes(sb: SecretBox, input: Bytes, key: Key) returns (r: Result<Bytes, Error>)
    requires |input| >= NonceSize
    ensures r == FailClosed(sb.open(key, input[..NonceSize], input[NonceSize..]), CantDecryptBytes)
    ensures sb.Valid() && |input| < NonceSize + Overhead ==> r == Failure(CantDecryptBytes)
  {
    var nonce := new byte[NonceSize];
    var _ := Copy(nonce, input[..NonceSize]);
    assert nonce[..] == nonce[..NonceSize] == input[..NonceSize];
    var out := sb.open(key, nonce[..], input[NonceSize..]);
    if out.None? {
      return Failure(CantDecryptBytes);
    }
    return Success(out.value);
  }

  /** A generates a pair, B generates a pair, A seals for B, B opens from A: `p` comes back. */
  method SealOpenExchange(box: Box, entropyA: Key, entropyB: Key, nonce: Nonce, p: Bytes)
    returns (r: Result<Bytes, Error>)
    requires box.Valid()
    ensures r == Success(p)
  {
    var a := GenerateCryptoKeys(box, Some(entropyA)).value;
    var b := GenerateCryptoKeys(box, Some(entropyB)).value;
    var sealed := SealBytes(box, nonce, p, b.public, a.private).value;
    r := OpenSealedBytes(box, sealed, a.public, b.private);
    box.SealOpen(nonce, p, a.private, b.private);
  }

  /** Decrypting what EncryptBytes produced under the same key gives back `p`. */
  method EncryptDecryptRoundTrip(sb: SecretBox, key: Key, nonce: Nonce, p: Bytes)
    returns (r: Result<Bytes, Error>)
    requires sb.Valid()
    ensures r == Success(p)
  {
    var encrypted := EncryptBytes(sb, nonce, p, key);
    r := DecryptBytes(sb, encrypted.value, key);
  }
}
