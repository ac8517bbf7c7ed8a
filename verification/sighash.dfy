/** `sigHash`: the digest the payer's wallet signs for a cheque. The raw
    cheque hash h1 = Keccak256(encoding) is wrapped in the "personal
    message" framing of the Ethereum `eth_sign` convention (EIP-191 version
    0x45): prefix byte 0x19, the text "Ethereum Signed Message:\n", the
    decimal byte length of h1, then h1 itself, and hashed again.

    Keccak-256 is foreign code; it enters as a parameter whose results are
    32 bytes long, and nothing else is assumed about it. */
module SigHash {
  import opened Bytes
  import opened Decimal
  import opened Cheque

  /** A Keccak-256 implementation: any function to 32-byte digests. */
  type Hasher = seq<byte> -> Bytes32

  /** The bytes of a string of 8-bit characters, as Go's `[]byte(s)`. */
  function Ascii(s: string): (r: seq<byte>)
    requires forall i :: 0 <= i < |s| ==> s[i] as int < 256
    ensures |r| == |s|
    ensures forall i :: 0 <= i < |s| ==> r[i] as int == s[i] as int
  {
    seq(|s|, i requires 0 <= i < |s| => s[i] as int as byte)
  }

  /** "\x19Ethereum Signed Message:\n", 26 bytes. */
  const MessagePrefix: seq<byte> := [0x19] + Ascii("Ethereum Signed Message:\n")

  /** The `Sprintf("\x19Ethereum Signed Message:\n%d%s", len(data), data)`
      message: `%s` copies the bytes of data verbatim. */
  function PersonalMessage(data: seq<byte>): seq<byte>
  {
    MessagePrefix + DecimalString(|data|) + data
  }

  /** The framing is unambiguous: the message determines the data, even
      though the data may itself start with digits. */
  lemma PersonalMessageInjective(d1: seq<byte>, d2: seq<byte>)
    ensures PersonalMessage(d1) == PersonalMessage(d2) ==> d1 == d2
  {
    var m1, m2 := PersonalMessage(d1), PersonalMessage(d2);
    if m1 == m2 {
      if |d1| < |d2| {
        DecimalLengthMonotone(|d1|, |d2|);
      } else if |d2| < |d1| {
        DecimalLengthMonotone(|d2|, |d1|);
      }
      assert |d1| == |d2|;
      assert d1 == m1[|m1| - |d1|..] == m2[|m2| - |d2|..] == d2;
    }
  }

  /** For a 32-byte digest the length field is the two ASCII digits "32",
      so the message is always 60 bytes with the digest in the last 32. */
  lemma DigestMessageLayout(h: Bytes32)
    ensures |MessagePrefix| == 26
    ensures PersonalMessage(h) == MessagePrefix + [0x33, 0x32] + h
    ensures |PersonalMessage(h)| == 60
  {
    assert DecimalString(3) == [0x33];
    assert DecimalString(32) == [0x33, 0x32];
  }

  /** The outer preimage of `sigHash`. */
  function SigHashPreimage(keccak: Hasher, cheque: ChequeParams): (m: seq<byte>)
    ensures |m| == 60
    ensures m[..26] == MessagePrefix
    ensures m[26..28] == Ascii("32")
    ensures m[28..] == keccak(EncodeForSignature(cheque))
  {
    var h1 := keccak(EncodeForSignature(cheque));
    DigestMessageLayout(h1);
    PersonalMessage(h1)
  }

  /** `sigHash`: Keccak256(prefix ++ "32" ++ Keccak256(encodeForSignature)). */
  function SigHash(keccak: Hasher, cheque: ChequeParams): (r: Bytes32)
    ensures r == keccak(MessagePrefix + Ascii("32") + keccak(EncodeForSignature(cheque)))
  {
    var m := SigHashPreimage(keccak, cheque);
    assert m == m[..26] + m[26..28] + m[28..];
    keccak(m)
  }

  /** Two different cheques with the same `sigHash` exhibit a Keccak-256
      collision: either between the two outer messages or between the two
      cheque encodings. So `sigHash` binds all three cheque fields as long
      as the hash is collision resistant. */
  lemma SigHashCollision(keccak: Hasher, c1: ChequeParams, c2: ChequeParams)
    returns (a: seq<byte>, b: seq<byte>)
    requires c1 != c2
    requires SigHash(keccak, c1) == SigHash(keccak, c2)
    ensures a != b && keccak(a) == keccak(b)
    ensures (a == SigHashPreimage(keccak, c1) && b == SigHashPreimage(keccak, c2))
         || (a == EncodeForSignature(c1) && b == EncodeForSignature(c2))
  {
    var m1, m2 := SigHashPreimage(keccak, c1), SigHashPreimage(keccak, c2);
    if m1 != m2 {
      a, b := m1, m2;
    } else {
      EncodingInjective(c1, c2);
      a, b := EncodeForSignature(c1), EncodeForSignature(c2);
      assert keccak(a) == m1[28..] == m2[28..] == keccak(b);
    }
  }
}
