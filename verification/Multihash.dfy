/** Hash strings: multibase `u`, then unpadded base64url of a SHA-256 multihash. */
module Multihash {
  import opened Text
  import Base64

  const MULTIBASE: Unit := 0x75
  const SHA2_256: Bytes := [0x12, 0x20]

  function HashString(digest: Bytes): (s: Str) {
    [MULTIBASE] + Base64.Encode(Base64.Url, SHA2_256 + digest)
  }

  /** `encodeHashstring`: fill a buffer with the two prefix bytes and the digest, then encode it. */
  method EncodeHashString(digest: Bytes) returns (s: Str)
    ensures s == HashString(digest)
  {
    var mh := new Byte[2 + |digest|];
    mh[0] := 0x12;
    mh[1] := 0x20;
    forall i | 0 <= i < |digest| {
      mh[2 + i] := digest[i];
    }
    assert mh[..] == SHA2_256 + digest;
    s := [MULTIBASE] + Base64.Encode(Base64.Url, mh[..]);
  }

  lemma HashStringInjective(d: Bytes, e: Bytes)
    ensures HashString(d) == HashString(e) <==> d == e
  {
    if HashString(d) == HashString(e) {
      assert HashString(d)[1..] == Base64.Encode(Base64.Url, SHA2_256 + d);
      assert HashString(e)[1..] == Base64.Encode(Base64.Url, SHA2_256 + e);
      Base64.EncodeInjective(Base64.Url, SHA2_256 + d, SHA2_256 + e);
      assert (SHA2_256 + d)[2..] == d && (SHA2_256 + e)[2..] == e;
    }
  }

  /** Every 32-byte digest reads `uEi`, then one of `A` to `D`, then 43 more characters. */
  lemma HashStringShape(digest: Bytes)
    requires |digest| == 32
    ensures |HashString(digest)| == 47
    ensures HashString(digest)[..3] == Ascii("uEi")
    ensures 0x41 <= HashString(digest)[3] <= 0x44
  {
    var b := SHA2_256 + digest;
    Base64.DecodeEncode(Base64.Url, b);
    var x := Base64.ToSextets(b);
    assert x[0] == 4 && x[1] == 34 && 0 <= x[2] < 4;
    var s := Base64.Digits(Base64.Url, x);
    assert s == [Base64.Digit(Base64.Url, x[0])] + Base64.Digits(Base64.Url, x[1..]);
    assert Base64.Digits(Base64.Url, x[1..]) == [Base64.Digit(Base64.Url, x[1])] + Base64.Digits(Base64.Url, x[1..][1..]);
    assert x[1..][1..][0] == x[2];
    assert s[2] == Base64.Digit(Base64.Url, x[2]);
  }

  /** `u`, then the base64url of the bytes 12 and 20 (hexadecimal) and the digest in order. */
  lemma HashStringDecodes(digest: Bytes)
    ensures HashString(digest) != [] && HashString(digest)[0] == 'u' as int
    ensures Base64.UrlDecode(HashString(digest)[1..]) == Some([0x12, 0x20] + digest)
  {
    Base64.DecodeEncode(Base64.Url, [0x12, 0x20] + digest);
    assert HashString(digest)[1..] == Base64.Encode(Base64.Url, [0x12, 0x20] + digest);
  }
}
