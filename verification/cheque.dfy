/** The cheque value object and its canonical 72-byte signing encoding:
    contract address, beneficiary address, then the cumulative payout as a
    32-byte big-endian `uint256` whose low 8 bytes hold the `uint64`. */
module Cheque {
  import opened Wrappers
  import opened Bytes

  /** `ChequeParams`: the chequebook contract the cheque is valid for (so it
      cannot be replayed against another), the beneficiary, and the total
      amount owed to date. */
  datatype ChequeParams = ChequeParams(
    contract: Address,
    beneficiary: Address,
    cumulativePayout: Uint64)

  const AddressLength := 20
  const PayoutSlotLength := 32
  const EncodingLength := 2 * AddressLength + PayoutSlotLength

  /** Start of the payout slot, and of its low 8 bytes. */
  const PayoutOffset := 2 * AddressLength
  const PayoutLowOffset := PayoutOffset + 24

  /** `encodeForSignature`: a 32-byte zero slot with the payout put into its
      last 8 bytes, appended to the two addresses. Total: every payout,
      including 0, is accepted and no earlier cheque is consulted. */
  function EncodeForSignature(cheque: ChequeParams): (r: seq<byte>)
    ensures |r| == EncodingLength
    ensures r[..AddressLength] == cheque.contract
    ensures r[AddressLength..PayoutOffset] == cheque.beneficiary
    ensures AllZero(r[PayoutOffset..PayoutLowOffset])
    ensures FromBigEndian(r[PayoutLowOffset..]) == cheque.cumulativePayout
    ensures r[PayoutOffset..] == Word(cheque.cumulativePayout)
  {
    var payoutBytes := Zeros(24) + PutUint64(cheque.cumulativePayout);
    var r := cheque.contract + cheque.beneficiary + payoutBytes;
    assert r[PayoutLowOffset..] == PutUint64(cheque.cumulativePayout);
    Pow256Eight();
    FromToBigEndian(cheque.cumulativePayout, 8);
    BigEndianLeadingZeros(cheque.cumulativePayout, 8, 24);
    assert r[PayoutOffset..] == payoutBytes;
    r
  }

  /** The inverse of the encoding: the cheque a 72-byte string encodes, or
      None when the length is wrong or the payout slot does not fit a
      `uint64` (some of its first 24 bytes are non-zero). */
  function DecodeSignatureEncoding(s: seq<byte>): (r: Option<ChequeParams>)
    ensures r.Some? <==> |s| == EncodingLength && AllZero(s[PayoutOffset..PayoutLowOffset])
    ensures r.Some? ==> EncodeForSignature(r.value) == s
  {
    if |s| == EncodingLength && AllZero(s[PayoutOffset..PayoutLowOffset]) then
      Pow256Eight();
      var cheque := ChequeParams(s[..AddressLength], s[AddressLength..PayoutOffset], FromBigEndian(s[PayoutLowOffset..]));
      EncodeFields(s, cheque);
      Some(cheque)
    else
      None
  }

  lemma EncodeFields(s: seq<byte>, cheque: ChequeParams)
    requires |s| == EncodingLength && AllZero(s[PayoutOffset..PayoutLowOffset])
    requires cheque.contract == s[..AddressLength]
    requires cheque.beneficiary == s[AddressLength..PayoutOffset]
    requires cheque.cumulativePayout == FromBigEndian(s[PayoutLowOffset..])
    ensures EncodeForSignature(cheque) == s
  {
    var e := EncodeForSignature(cheque);
    var low := s[PayoutLowOffset..];
    var p := cheque.cumulativePayout;
    ToFromBigEndian(low);
    assert ToBigEndian(p, 8) == low;
    Pow256Eight();
    BigEndianLeadingZeros(p, 8, 24);
    assert e[PayoutOffset..] == Zeros(24) + low;
    ZeroSlice(s[PayoutOffset..PayoutLowOffset]);
    assert s[PayoutOffset..] == s[PayoutOffset..PayoutLowOffset] + low;
    assert e[..PayoutOffset] == s[..PayoutOffset];
    assert e == e[..PayoutOffset] + e[PayoutOffset..];
    assert s == s[..PayoutOffset] + s[PayoutOffset..];
  }

  /** Decoding an encoding recovers the cheque. */
  lemma EncodeDecodeRoundTrip(cheque: ChequeParams)
    ensures DecodeSignatureEncoding(EncodeForSignature(cheque)) == Some(cheque)
  {
    var e := EncodeForSignature(cheque);
    var d := DecodeSignatureEncoding(e);
    EncodingInjective(d.value, cheque);
  }

  /** Distinct cheques have distinct encodings: no two of the three fields
      can be traded against each other, so a signature over one cheque never
      covers another. */
  lemma EncodingInjective(c1: ChequeParams, c2: ChequeParams)
    ensures EncodeForSignature(c1) == EncodeForSignature(c2) ==> c1 == c2
  {
    if EncodeForSignature(c1) == EncodeForSignature(c2) {
      var e := EncodeForSignature(c1);
      assert c1.contract == e[..AddressLength] == c2.contract;
      assert c1.beneficiary == e[AddressLength..PayoutOffset] == c2.beneficiary;
      assert c1.cumulativePayout == FromBigEndian(e[PayoutLowOffset..]) == c2.cumulativePayout;
    }
  }

  /** Changing the payout alone changes only the last 8 bytes; a zero
      payout leaves the whole 32-byte slot zero. Lower payouts than an
      earlier cheque's are encoded like any other. */
  lemma PayoutOnlyChangesLowBytes(cheque: ChequeParams, payout: Uint64)
    ensures EncodeForSignature(cheque.(cumulativePayout := payout))[..PayoutLowOffset]
         == EncodeForSignature(cheque)[..PayoutLowOffset]
    ensures payout == 0 ==> AllZero(EncodeForSignature(cheque.(cumulativePayout := payout))[PayoutOffset..])
  {
    var c' := cheque.(cumulativePayout := payout);
    var e, e' := EncodeForSignature(cheque), EncodeForSignature(c');
    assert e[..PayoutOffset] == e'[..PayoutOffset];
    assert e[..PayoutLowOffset] == e[..PayoutOffset] + e[PayoutOffset..PayoutLowOffset];
    assert e'[..PayoutLowOffset] == e'[..PayoutOffset] + e'[PayoutOffset..PayoutLowOffset];
    if payout == 0 {
      BigEndianOfZero(PayoutSlotLength);
    }
  }

  /** The demo's payout of 100 occupies the last byte of the slot alone:
      thirty-one zero bytes, then 0x64. */
  lemma PayoutHundredSlot(contract: Address, beneficiary: Address)
    ensures EncodeForSignature(ChequeParams(contract, beneficiary, 100))[PayoutOffset..] == Zeros(31) + [0x64]
  {
    BigEndianLeadingZeros(100, 1, 31);
    assert ToBigEndian(100, 1) == [0x64];
  }
}
