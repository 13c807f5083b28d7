/**
 The cryptographic library seen from outside: arbitrary functions with the properties that
 every correct implementation has.  Nothing here says that a hash is injective or that a
 tag cannot be guessed.
 */
module Crypto {
  import opened Bytes
  import opened Wrappers

  /** A hash with n-byte digests. */
  ghost predicate DigestOf(hash: seq<byte> -> seq<byte>, n: nat) {
    forall x: seq<byte> :: |hash(x)| == n
  }

  /** SHA-256 is used by the audit log, SHA3-512 by the session protocol. */
  type Hash32 = h: seq<byte> -> seq<byte> | DigestOf(h, 32) witness ((x: seq<byte>) => seq(32, i => 0))
  type Hash64 = h: seq<byte> -> seq<byte> | DigestOf(h, 64) witness ((x: seq<byte>) => seq(64, i => 0))

  /** Two different inputs with one digest. */
  ghost predicate Collision(hash: seq<byte> -> seq<byte>, x: seq<byte>, y: seq<byte>) {
    x != y && hash(x) == hash(y)
  }

  /** HMAC-SHA-256: key and message to a 32-byte code. */
  ghost predicate MacOf32(mac: (seq<byte>, seq<byte>) -> seq<byte>) {
    forall key: seq<byte>, data: seq<byte> :: |mac(key, data)| == 32
  }

  type Mac32 = m: (seq<byte>, seq<byte>) -> seq<byte> | MacOf32(m)
    witness ((k: seq<byte>, d: seq<byte>) => seq(32, i => 0))

  /** The traffic directions, and what HKDF is asked to derive for each of them. */
  datatype Direction = DroneToServer | ServerToDrone
  datatype Purpose = TrafficKey(direction: Direction) | IvPrefix(direction: Direction)

  /**
   The primitives of the secure channel.  `derive` is HKDF from a session secret, with one
   info label for each purpose; `rekey` is HKDF from the old secret and a new key; `seal` and
   `open` are AES-256-GCM encryption and decryption; `viaFipsModule` says which of the two
   decryption back ends is compiled in.
   */
  datatype SuiteFns = SuiteFns(
    derive: (seq<byte>, Purpose, nat) -> seq<byte>,
    rekey: (seq<byte>, seq<byte>) -> seq<byte>,
    seal: (seq<byte>, seq<byte>, seq<byte>, seq<byte>) -> (seq<byte>, seq<byte>),
    open: (seq<byte>, seq<byte>, seq<byte>, seq<byte>, seq<byte>) -> Option<seq<byte>>,
    viaFipsModule: bool)
  {
    /** HKDF yields as many bytes as asked for. */
    ghost predicate DerivesLength() {
      && (forall secret: seq<byte>, purpose: Purpose, n: nat :: |derive(secret, purpose, n)| == n)
      && (forall secret: seq<byte>, key: seq<byte> :: |rekey(secret, key)| == 32)
    }

    /** A ciphertext is as long as its plaintext and a tag is 16 bytes. */
    ghost predicate SealsLength() {
      forall key: seq<byte>, iv: seq<byte>, aad: seq<byte>, p: seq<byte> ::
        |seal(key, iv, aad, p).0| == |p| && |seal(key, iv, aad, p).1| == 16
    }

    /** Decryption succeeds on exactly the outputs of encryption. */
    ghost predicate OpensWhatWasSealed() {
      forall key: seq<byte>, iv: seq<byte>, aad: seq<byte>, ct: seq<byte>, tag: seq<byte>, p: seq<byte> ::
        open(key, iv, aad, ct, tag) == Some(p) <==> seal(key, iv, aad, p) == (ct, tag)
    }

    ghost predicate Sound() {
      DerivesLength() && SealsLength() && OpensWhatWasSealed()
    }
  }

  const ZERO_TAG: seq<byte> := seq(16, i => 0)

  const NULL_SUITE: SuiteFns := SuiteFns(
    (secret, purpose, n: nat) => seq(n, i => 0),
    (secret, key) => seq(32, i => 0),
    (key, iv, aad, p) => (p, ZERO_TAG),
    (key, iv, aad, ct, tag) => if tag == ZERO_TAG then Some(ct) else None,
    false)

  type Suite = s: SuiteFns | s.Sound() witness NULL_SUITE
}
