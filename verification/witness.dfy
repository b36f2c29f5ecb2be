/** A concrete suite meeting every assumption of `Lawful`: it pads like
    PKCS#7 but does not encrypt, and its "digest" is 32 zero bytes. It is
    not a cipher; it only shows that the assumptions the proofs rest on
    can all hold at once. */
module Witness {
  import opened Wrappers
  import opened Primitives

  /** Padding bytes appended to an `n`-byte message: between 1 and 16
      bytes, each holding the padding length. */
  function Padding(n: nat): (r: Bytes)
    ensures 1 <= |r| <= BlockLength
    ensures n + |r| == PaddedLength(n)
    ensures forall j :: 0 <= j < |r| ==> r[j] as int == |r|
  {
    var k := BlockLength - n % BlockLength;
    seq(k, _ => k as bv8)
  }

  /** Strips padding whose last byte `k` is between 1 and 16 and whose last
      `k` bytes all equal `k`; anything else is rejected. */
  function Unpad(c: Bytes): (r: Option<Bytes>)
    ensures r.Some? ==> |r.value| < |c| && r.value == c[..|r.value|]
  {
    if |c| == 0 then None
    else
      var k := c[|c| - 1] as int;
      if 1 <= k <= BlockLength && k <= |c| && forall j :: |c| - k <= j < |c| ==> c[j] as int == k
      then Some(c[..|c| - k])
      else None
  }

  /** Unpadding undoes padding. */
  lemma UnpadPadding(p: Bytes)
    ensures Unpad(p + Padding(|p|)) == Some(p)
  {
    var pad := Padding(|p|);
    var c := p + pad;
    var k := |pad|;
    assert c[|c| - 1] == pad[k - 1];
    assert forall j :: |c| - k <= j < |c| ==> c[j] == pad[j - |p|];
    assert c[..|c| - k] == p;
  }

  function PaddingSuite(): Suite {
    Suite(
      (password: string) => [],
      (m: Bytes) => seq(DigestLength, _ => 0),
      (k: Bytes, iv: Bytes, p: Bytes) => p + Padding(|p|),
      (k: Bytes, iv: Bytes, c: Bytes) => Unpad(c))
  }

  /** The assumptions of `Lawful` are consistent. */
  lemma PaddingSuiteIsLawful()
    ensures Lawful(PaddingSuite())
  {
    var s := PaddingSuite();
    forall k, iv, p | |k| == KeyLength && |iv| == BlockLength
      ensures s.decrypt(k, iv, s.encrypt(k, iv, p)) == Some(p)
    {
      UnpadPadding(p);
    }
  }
}
