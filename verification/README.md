# Cheque signing model (swap-clef-test)

A Dafny model of the cheque signing primitive of the chequebook demo in
`main/main.go`, plus two decision rules of its demo flow.

- **Cheque encoding** (`Cheque`): `ChequeParams` holds the chequebook
  contract address, the beneficiary address and a `uint64` cumulative
  payout. `encodeForSignature` lays them out as 20 + 20 + 32 bytes, the last
  field a 32-byte big-endian word with the payout in its low 8 bytes. The
  model gives a decoder and proves the round trip both ways, hence
  injectivity, and proves the payout slot equals the EVM's 32-byte
  big-endian word of the payout.
- **Signature hash** (`SigHash`): `sigHash` hashes the encoding with
  Keccak-256, wraps the 32-byte digest in the `eth_sign` personal-message
  framing (byte 0x19, "Ethereum Signed Message:\n", the decimal length, the
  digest) and hashes again. Keccak-256 is a parameter of type
  `seq<byte> -> Bytes32`; nothing but the 32-byte output width is assumed.
  The model proves the outer preimage is the 60-byte
  prefix ++ "32" ++ digest, that the framing is injective for data of any
  length, and that two different cheques with equal `sigHash` yield a
  concrete Keccak-256 collision.
- **Big-endian and decimal helpers** (`Bytes`, `Decimal`): Go's
  `binary.BigEndian.PutUint64` written digit by digit as the shifts define
  it, proved equal to a recursive big-endian encoder with a decoder; Go's
  `%d` as canonical ASCII decimal with a parser.
- **Transactor guard** (`Transactor`): `NewWalletTransactor` returns options
  sending from the account, whose signer callback refuses any other address
  without contacting the wallet and otherwise calls the wallet's `SignTx`
  exactly once, with no chain id. The wallet is a parameter, and a signing
  attempt records the wallet calls it made.
- **Deployed-address selection** (`Deployment`): the receipt logs, each
  given as the result of parsing it as a `SimpleSwapDeployed` event, are
  scanned in order. The first parsed address wins, and the zero address
  means failure. The loop as written (`SelectDeployedAddress`) is proved
  equal to a recursive definition. Later logs are proved irrelevant.

## Model

| member | source | states |
|---|---|---|
| Bytes.PutUint64 | main/main.go:185-188 | the 8 bytes written by `PutUint64`, byte i being the payout shifted right by 56 - 8i bits and truncated, are exactly the big-endian encoding of the payout |
| Bytes.FromToBigEndian | main/main.go:186-188 | reading a big-endian field back gives the value that was written |
| Bytes.ToFromBigEndian | main/main.go:186-188 | every byte string is the big-endian encoding of its value, so the field has no second representation |
| Bytes.BigEndianLeadingZeros | main/main.go:185-188 | writing a `uint64` into the last 8 bytes of a zeroed 32-byte slot yields the full 32-byte big-endian word of the value |
| Decimal.DecimalString | main/main.go:201 | the `%d` text of a length is non-empty, all ASCII digits, and starts with '0' only for zero |
| Decimal.ParseDecimalString | main/main.go:201 | the `%d` text of a length reads back as that length |
| Decimal.DecimalLengthMonotone | main/main.go:201 | a longer payload never gets a shorter length field |
| Cheque.EncodeForSignature | main/main.go:184-194 | the encoding is 72 bytes: contract in bytes 0-19, beneficiary in 20-39, zeros in 40-63, payout big-endian in 64-71 and decodable from them, and bytes 40-71 are the 32-byte word of the payout; defined for every payout |
| Cheque.DecodeSignatureEncoding | main/main.go:184-194 | a byte string decodes exactly when it is 72 bytes with zero bytes 40-63, and then it is the encoding of the decoded cheque |
| Cheque.EncodeDecodeRoundTrip | main/main.go:184-194 | decoding the encoding of any cheque gives back that cheque |
| Cheque.EncodingInjective | main/main.go:177-194 | distinct cheques, differing in contract, beneficiary or payout, never share an encoding |
| Cheque.PayoutOnlyChangesLowBytes | main/main.go:184-194 | any payout, lower than an earlier one or zero, is encoded; changing it alters only bytes 64-71, and payout 0 gives a 32-byte zero slot |
| Cheque.PayoutHundredSlot | main/main.go:131-135 | the demo cheque's payout of 100 encodes as a payout slot of 31 zero bytes followed by 0x64, for any addresses |
| SigHash.PersonalMessageInjective | main/main.go:201 | the prefixed message `prefix ++ %d(len) ++ data` determines the data, whatever its length and content |
| SigHash.DigestMessageLayout | main/main.go:199-202 | for a 32-byte digest the prefix is 26 bytes, the length field is the ASCII "32", and the message is 60 bytes |
| SigHash.SigHashPreimage | main/main.go:199-201 | the outer preimage is 60 bytes: the 26-byte prefix, "32", then the Keccak-256 of the cheque encoding verbatim |
| SigHash.SigHash | main/main.go:197-203 | `sigHash` is Keccak-256 of prefix ++ "32" ++ Keccak-256(encoding), a 32-byte digest |
| SigHash.SigHashCollision | main/main.go:197-203 | two different cheques with the same `sigHash` give two different inputs with the same Keccak-256 digest: the outer messages or the encodings |
| Transactor.SignedOnlyForAccount | main/main.go:62-67 | a successful signing implies the requested address was the account's, exactly one wallet call was made, and the signed transaction is the wallet's |
| Transactor.NewWalletTransactor | main/main.go:59-69 | options send from the account; the signer fails with "not authorized" and makes no wallet call for any other address, and for the account's address makes exactly one `SignTx(account, tx, nil)` call whose result or error it passes on |
| Deployment.FirstParsed | main/main.go:108-114 | yields nothing exactly when no log parses, and otherwise the address of the first log that parses |
| Deployment.DeployedAddress | main/main.go:108-117 | succeeds exactly when the first log that parses carries a non-zero address, and then with that address |
| Deployment.SelectDeployedAddress | main/main.go:108-117 | the zero-initialised loop with `break` at the first parsed log and the zero-address check computes the same outcome as `DeployedAddress` |
| Deployment.LaterLogsIgnored | main/main.go:109-113 | once some log parses, appending further logs changes neither the selected address nor the outcome |

## Left out

- Keccak-256 itself (`crypto.Keccak256`) is foreign library code: it is a parameter, and only its 32-byte output width is modelled.
- `CashChequeBeneficiaryRequest` (main/main.go:205-227) is not modelled: its call data comes from `abi.JSON`/`abi.Pack` over an ABI string that is not part of this model, and its nonce and gas price come from network queries. It builds a transaction with value 0, gas limit 1000000, recipient the chequebook contract, and a nonce queried for `cheque.Beneficiary` (main/main.go:216, 226). It converts the payout with `big.NewInt(int64(...))` (main/main.go:211), so a payout of 2^63 or more reaches `Pack` as a negative number. What `Pack` does with that is not visible, so no claim is made for such payouts.
- `main`, `run`, and the deployment, minting, signing, sending and balance steps of `runChequebook` are left out: they are network and wallet I/O (`ethclient.Dial`, the external Clef signer, `WaitDeployed`, `WaitMined`, `SendTransaction`). This includes selecting `wallet.Accounts()[0]` and calling `SignData` with the text/plain MIME type on `sigHash`.
- Printing and the hard-coded demo values (backend URL, recipient address, payout 100, mint amount 50000) are left out.
- Transactor.NewWalletTransactor: the `types.Signer` argument of the signer callback is not modelled, because the source ignores it. Errors are datatype constructors rather than Go error strings; the strings are in comments.
- Deployment.FirstParsed: `ParseSimpleSwapDeployed` is foreign code, so each log is given as its parse result.
- The source's encoding has no error path, and neither has the model: out-of-range fields are ruled out by the `Address` and `Uint64` types, so there is no encoding error to model.
