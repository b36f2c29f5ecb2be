/** The cryptographic library calls FeCli relies on, kept uninterpreted.

    A `Suite` bundles UTF-8 encoding, SHA-256 (FIPS 180-4) and AES-256 in
    CBC mode (FIPS 197, section 6.2 of NIST SP 800-38A) with PKCS#7 padding
    (section 6.3 of RFC 5652). Nothing about their internals is modelled;
    `Lawful` collects the only facts the model relies on. */
module Primitives {
  import opened Wrappers

  type Bytes = seq<bv8>

  /** Length of a SHA-256 digest. */
  const DigestLength := 32
  /** AES-256 key length. */
  const KeyLength := 32
  /** AES block length, which is also the CBC initialisation-vector length. */
  const BlockLength := 16

  datatype Suite = Suite(
    utf8: string -> Bytes,
    sha256: Bytes -> Bytes,
    encrypt: (Bytes, Bytes, Bytes) -> Bytes,
    decrypt: (Bytes, Bytes, Bytes) -> Option<Bytes>)

  /** Length of the PKCS#7-padded form of an `n`-byte message: always at
      least one byte of padding, so a full extra block when `n` is aligned. */
  function PaddedLength(n: nat): (r: nat)
    ensures r % BlockLength == 0
    ensures n < r <= n + BlockLength
  {
    BlockLength * (n / BlockLength + 1)
  }

  /** The assumptions on the library: SHA-256 yields 32 bytes, and with a
      32-byte key and a 16-byte IV decryption undoes encryption and the
      ciphertext is the padded length. Decryption of anything else may fail
      (`None`), which stands for a `CryptographicException`. */
  ghost predicate Lawful(s: Suite) {
    && (forall m :: |s.sha256(m)| == DigestLength)
    && (forall k, iv, p | |k| == KeyLength && |iv| == BlockLength ::
          s.decrypt(k, iv, s.encrypt(k, iv, p)) == Some(p))
    && (forall k, iv, p | |k| == KeyLength && |iv| == BlockLength ::
          |s.encrypt(k, iv, p)| == PaddedLength(|p|))
  }
}
