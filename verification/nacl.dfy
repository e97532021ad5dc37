/**
 * The NaCl primitives the crypto layer calls: `secretbox` (XSalsa20-Poly1305 under one
 * shared key) and `box` (Curve25519 key agreement followed by secretbox). Their
 * cryptography is not modelled. Each primitive is a record of functions, and `Valid()`
 * states what the library promises about them; every theorem that needs a promise
 * requires `Valid()` of the record it uses. The secretbox inside a `Box` and a secretbox
 * passed on its own are independent records: no theorem relates the two.
 */
module Nacl {
  import opened Wrappers

  newtype byte = x: int | 0 <= x < 256

  type Bytes = seq<byte>

  /** Length of a crypto key, the key length of box and secretbox. */
  const KeySize: nat := 32

  /** Length of the nonce, the nonce length of box and secretbox. */
  const NonceSize: nat := 24

  /** Length of the Poly1305 tag that sealing adds in front of the ciphertext. */
  const Overhead: nat := 16

  type Key = k: Bytes | |k| == KeySize witness seq(32, _ => 0)

  type Nonce = n: Bytes | |n| == NonceSize witness seq(24, _ => 0)

  /** secretbox: `seal(key, nonce, message)` and `open(key, nonce, box)`. */
  datatype SecretBox = SecretBox(
    seal: (Key, Nonce, Bytes) -> Bytes,
    open: (Key, Nonce, Bytes) -> Option<Bytes>)
  {
    /** Opening what was sealed under the same key and nonce gives the message back. */
    ghost predicate RoundTrips() {
      forall k: Key, n: Nonce, m: Bytes :: open(k, n, seal(k, n, m)) == Some(m)
    }

    /** A sealed box is the message plus the tag. */
    ghost predicate AddsTag() {
      forall k: Key, n: Nonce, m: Bytes :: |seal(k, n, m)| == |m| + Overhead
    }

    /** Open yields a message only from a box exactly one tag longer than it. */
    ghost predicate StripsTag() {
      forall k: Key, n: Nonce, c: Bytes ::
        open(k, n, c).Some? ==> |c| == |open(k, n, c).value| + Overhead
    }

    ghost predicate Valid() {
      RoundTrips() && AddsTag() && StripsTag()
    }
  }

  /**
   * box: `publicOf(private)` is the Curve25519 public key of a private key and
   * `agree(peersPublic, private)` the shared key (box.Precompute); sealing and opening
   * are secretbox under that shared key.
   */
  datatype Box = Box(
    publicOf: Key -> Key,
    agree: (Key, Key) -> Key,
    secret: SecretBox)
  {
    /** Both parties of an exchange derive the same shared key. */
    ghost predicate Agrees() {
      forall a: Key, b: Key :: agree(publicOf(a), b) == agree(publicOf(b), a)
    }

    ghost predicate Valid() {
      Agrees() && secret.Valid()
    }

    predicate IsKeyPair(public: Key, private: Key) {
      public == publicOf(private)
    }

    function Seal(nonce: Nonce, message: Bytes, peersPublic: Key, private: Key): (c: Bytes)
      ensures Valid() ==> |c| == |message| + Overhead
    {
      secret.seal(agree(peersPublic, private), nonce, message)
    }

    function Open(nonce: Nonce, c: Bytes, peersPublic: Key, private: Key): (m: Option<Bytes>)
      ensures Valid() && m.Some? ==> |c| == |m.value| + Overhead
    {
      secret.open(agree(peersPublic, private), nonce, c)
    }

    /**
     * A message sealed by A for B (B's public key, A's private key) opens with A's
     * public key and B's private key.
     */
    lemma SealOpen(nonce: Nonce, m: Bytes, privA: Key, privB: Key)
      requires Valid()
      ensures Open(nonce, Seal(nonce, m, publicOf(privB), privA), publicOf(privA), privB) == Some(m)
    {
    }
  }

  /**
   * A stand-in secretbox with no secrecy at all: the tag is the first 16 key bytes. It
   * only shows that `SecretBox.Valid()` can be met.
   */
  function ToySecretBox(): (sb: SecretBox)
    ensures sb.Valid()
  {
    var sb := SecretBox(
      (k: Key, n: Nonce, m: Bytes) => k[..Overhead] + m,
      (k: Key, n: Nonce, c: Bytes) =>
        if |c| >= Overhead && c[..Overhead] == k[..Overhead] then Some(c[Overhead..]) else None);
    assert sb.RoundTrips() by {
      forall k: Key, n: Nonce, m: Bytes ensures sb.open(k, n, sb.seal(k, n, m)) == Some(m) {
        assert (k[..Overhead] + m)[..Overhead] == k[..Overhead];
        assert (k[..Overhead] + m)[Overhead..] == m;
      }
    }
    sb
  }

  /** A stand-in box over ToySecretBox whose shared key is always the same. */
  function ToyBox(): (b: Box)
    ensures b.Valid()
  {
    Box(k => k, (p, q) => seq(32, _ => 0), ToySecretBox())
  }
}
