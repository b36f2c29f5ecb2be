/** The on-disk container: a five-byte ASCII signature, a 16-byte IV and
    the ciphertext, concatenated in that order. */
module Container {
  import opened Wrappers
  import opened Primitives

  /** One character as `Encoding.ASCII` encodes it: code points above 127
      become `'?'`. */
  function AsciiByte(c: char): bv8 {
    if c as int < 128 then (c as int) as bv8 else 0x3F
  }

  /** A string as `Encoding.ASCII.GetBytes` encodes it, one byte per
      character (a Unicode scalar value). */
  function Ascii(s: string): (r: Bytes)
    ensures |r| == |s|
    ensures forall i :: 0 <= i < |s| && s[i] as int < 128 ==> r[i] as int == s[i] as int
  {
    seq(|s|, i requires 0 <= i < |s| => AsciiByte(s[i]))
  }

  /** The magic bytes every container starts with. */
  const FileSignature: Bytes := Ascii("FECLI")

  const SignatureLength := 5
  const IvLength := BlockLength
  /** Offset of the ciphertext: signature plus IV. */
  const HeaderLength := SignatureLength + IvLength

  /** The signature is the five ASCII bytes F, E, C, L, I. */
  lemma SignatureBytes()
    ensures |FileSignature| == SignatureLength
    ensures FileSignature == [0x46, 0x45, 0x43, 0x4C, 0x49]
  {
  }

  /** The format's definition of a container: at least as long as the
      signature and starting with it. */
  predicate IsContainer(b: Bytes) {
    |b| >= SignatureLength && b[..SignatureLength] == FileSignature
  }

  /** The byte-by-byte comparison of a header against the signature,
      from position `i` on, returning false at the first mismatch. */
  function HeaderMatchesFrom(header: Bytes, i: nat): (r: bool)
    requires |header| == SignatureLength && i <= SignatureLength
    ensures r <==> forall j :: i <= j < SignatureLength ==> header[j] == FileSignature[j]
    decreases SignatureLength - i
  {
    if i == SignatureLength then true
    else if header[i] != FileSignature[i] then false
    else HeaderMatchesFrom(header, i + 1)
  }

  /** The header check as the program performs it: a buffer shorter than
      the signature is never a container; otherwise its first five bytes
      are compared one by one. */
  function CheckHeader(b: Bytes): (r: bool)
    ensures r <==> IsContainer(b)
    ensures |b| < SignatureLength ==> !r
  {
    if |b| < |FileSignature| then false
    else HeaderMatchesFrom(b[..SignatureLength], 0)
  }

  /** The three regions a container buffer is sliced into. */
  datatype Parts = Parts(signature: Bytes, iv: Bytes, ciphertext: Bytes)

  /** Lays out signature, IV and ciphertext, in that order. */
  function Encode(iv: Bytes, ciphertext: Bytes): (r: Bytes)
    requires |iv| == IvLength
    ensures |r| == HeaderLength + |ciphertext|
    ensures IsContainer(r)
    ensures r[SignatureLength..HeaderLength] == iv
    ensures r[HeaderLength..] == ciphertext
  {
    FileSignature + iv + ciphertext
  }

  /** Slices a buffer as bytes [0,5) signature, [5,21) IV and [21,len)
      ciphertext. The signature is copied out but not compared. A buffer
      shorter than 21 bytes cannot be sliced (`None`). */
  function Decode(b: Bytes): (r: Option<Parts>)
    ensures r.Some? <==> |b| >= HeaderLength
    ensures r.Some? ==>
      && |r.value.signature| == SignatureLength
      && |r.value.iv| == IvLength
      && r.value.signature + r.value.iv + r.value.ciphertext == b
  {
    if |b| < HeaderLength then None
    else
      var signature := b[..SignatureLength];
      var iv := b[SignatureLength..HeaderLength];
      var ciphertext := b[HeaderLength..];
      assert signature + iv + ciphertext == b;
      Some(Parts(signature, iv, ciphertext))
  }

  /** Decoding recovers exactly what encoding laid out. */
  lemma DecodeEncode(iv: Bytes, ciphertext: Bytes)
    requires |iv| == IvLength
    ensures Decode(Encode(iv, ciphertext)) == Some(Parts(FileSignature, iv, ciphertext))
  {
    var b := Encode(iv, ciphertext);
    assert b[..SignatureLength] == FileSignature;
  }

  /** Every container long enough to hold an IV is the encoding of the
      IV and ciphertext it decodes to. */
  lemma EncodeDecode(b: Bytes)
    requires IsContainer(b) && |b| >= HeaderLength
    ensures Decode(b).Some?
    ensures Decode(b).value.signature == FileSignature
    ensures Encode(Decode(b).value.iv, Decode(b).value.ciphertext) == b
  {
  }

  /** A buffer starts with the signature exactly when its decoded
      signature region is the signature. */
  lemma DecodedSignature(b: Bytes)
    requires |b| >= HeaderLength
    ensures Decode(b).value.signature == FileSignature <==> IsContainer(b)
  {
  }

  /** A container written for an `n`-byte plaintext is `21 + 16 * (n / 16 + 1)`
      bytes long. */
  lemma EncodedLength(s: Suite, key: Bytes, iv: Bytes, plaintext: Bytes)
    requires Lawful(s)
    requires |key| == KeyLength && |iv| == IvLength
    ensures |Encode(iv, s.encrypt(key, iv, plaintext))| == HeaderLength + PaddedLength(|plaintext|)
    ensures |Encode(iv, s.encrypt(key, iv, plaintext))| == 21 + 16 * (|plaintext| / 16 + 1)
  {
  }
}
