/** Bytes, fixed-width byte strings and big-endian unsigned integers, as the
    Ethereum tooling uses them: 20-byte addresses, 32-byte digests and
    `uint64` amounts written most-significant byte first. */
module Bytes {

  /** An unsigned 8-bit value. */
  newtype byte = x: int | 0 <= x < 256

  /** A 20-byte account or contract address (`common.Address`). */
  type Address = s: seq<byte> | |s| == 20 witness Zeros(20)

  /** A 32-byte digest, the output width of Keccak-256. */
  type Bytes32 = s: seq<byte> | |s| == 32 witness Zeros(32)

  /** Go's `uint64`. */
  type Uint64 = x: int | 0 <= x < 0x1_0000_0000_0000_0000

  function Zeros(n: nat): (r: seq<byte>)
    ensures |r| == n
    ensures forall i :: 0 <= i < n ==> r[i] == 0
  {
    seq(n, _ => 0)
  }

  predicate AllZero(s: seq<byte>)
  {
    forall i :: 0 <= i < |s| ==> s[i] == 0
  }

  lemma ZeroSlice(s: seq<byte>)
    requires AllZero(s)
    ensures s == Zeros(|s|)
  {
  }

  /** 256 to the power n: one more than the largest value n bytes can hold. */
  function Pow256(n: nat): (p: nat)
    ensures p >= 1
  {
    if n == 0 then 1 else 256 * Pow256(n - 1)
  }

  /** 2^64: every `uint64` fits in 8 bytes. */
  lemma Pow256Eight()
    ensures Pow256(8) == 0x1_0000_0000_0000_0000
  {
    assert Pow256(4) == 0x1_0000_0000;
  }

  /** The n-byte big-endian encoding of v, built least-significant byte last. */
  function ToBigEndian(v: nat, n: nat): (r: seq<byte>)
    requires v < Pow256(n)
    ensures |r| == n
  {
    if n == 0 then []
    else ToBigEndian(v / 256, n - 1) + [(v % 256) as byte]
  }

  /** The unsigned value of a big-endian byte string. */
  function FromBigEndian(s: seq<byte>): (v: nat)
    ensures v < Pow256(|s|)
  {
    if s == [] then 0
    else FromBigEndian(s[..|s| - 1]) * 256 + s[|s| - 1] as nat
  }

  /** Go's `binary.BigEndian.PutUint64`: byte i is `byte(v >> (56 - 8*i))`,
      i.e. the i-th base-256 digit of v counting from the most significant. */
  function PutUint64(v: Uint64): (r: seq<byte>)
    ensures |r| == 8
    ensures r == ToBigEndian(v, 8)
  {
    var r := seq(8, i requires 0 <= i < 8 => ((v / Pow256(7 - i)) % 256) as byte);
    Pow256Eight();
    BigEndianDigits(v, 8);
    r
  }

  /** The EVM's 32-byte big-endian word holding a `uint64`. */
  function Word(v: Uint64): (r: seq<byte>)
    ensures |r| == 32
  {
    Pow256Eight();
    PowMonotone(8, 32);
    ToBigEndian(v, 32)
  }

  lemma {:induction false} FromToBigEndian(v: nat, n: nat)
    requires v < Pow256(n)
    ensures FromBigEndian(ToBigEndian(v, n)) == v
  {
    if n > 0 {
      var r := ToBigEndian(v, n);
      var w, b := v / 256, v % 256;
      assert r[..n - 1] == ToBigEndian(w, n - 1);
      assert r[n - 1] as nat == b;
      FromToBigEndian(w, n - 1);
      assert FromBigEndian(r) == FromBigEndian(r[..n - 1]) * 256 + r[n - 1] as nat;
    }
  }

  lemma {:induction false} ToFromBigEndian(s: seq<byte>)
    ensures ToBigEndian(FromBigEndian(s), |s|) == s
  {
    if s != [] {
      var init := s[..|s| - 1];
      var q, b := FromBigEndian(init), s[|s| - 1] as nat;
      assert FromBigEndian(s) == q * 256 + b;
      DivModOfDigit(q, b);
      ToFromBigEndian(init);
      assert ToBigEndian(FromBigEndian(s), |s|) == ToBigEndian(q, |s| - 1) + [b as byte];
      assert s == init + [s[|s| - 1]];
    }
  }

  /** Widening a big-endian field only adds leading zero bytes: the EVM's
      32-byte `uint256` of a value below 2^64 is 24 zero bytes followed by
      its 8-byte encoding. */
  lemma {:induction false} BigEndianLeadingZeros(v: nat, n: nat, k: nat)
    requires v < Pow256(n)
    ensures v < Pow256(n + k)
    ensures ToBigEndian(v, n + k) == Zeros(k) + ToBigEndian(v, n)
  {
    PowMonotone(n, n + k);
    if k > 0 {
      if n == 0 {
        assert v == 0;
        BigEndianOfZero(k);
      } else {
        BigEndianLeadingZeros(v / 256, n - 1, k);
        assert ToBigEndian(v / 256, n - 1 + k) == Zeros(k) + ToBigEndian(v / 256, n - 1);
        assert ToBigEndian(v, n + k) == ToBigEndian(v / 256, n - 1 + k) + [(v % 256) as byte];
      }
    }
  }

  lemma {:induction false} BigEndianOfZero(n: nat)
    ensures ToBigEndian(0, n) == Zeros(n)
  {
    if n > 0 {
      BigEndianOfZero(n - 1);
    }
  }

  /** Byte i of the n-byte encoding is the base-256 digit of weight
      256^(n-1-i), which is what a shift-and-truncate writer produces. */
  lemma {:induction false} BigEndianDigits(v: nat, n: nat)
    requires v < Pow256(n)
    ensures forall i :: 0 <= i < n ==> ToBigEndian(v, n)[i] == ((v / Pow256(n - 1 - i)) % 256) as byte
  {
    if n > 0 {
      BigEndianDigits(v / 256, n - 1);
      forall i | 0 <= i < n
        ensures ToBigEndian(v, n)[i] == ((v / Pow256(n - 1 - i)) % 256) as byte
      {
        if i < n - 1 {
          DivDiv(v, 256, Pow256(n - 2 - i));
        }
      }
    }
  }

  lemma PowMonotone(m: nat, n: nat)
    requires m <= n
    ensures Pow256(m) <= Pow256(n)
    decreases n - m
  {
    if m < n {
      PowMonotone(m, n - 1);
    }
  }

  lemma DivModOfDigit(q: nat, b: nat)
    requires b < 256
    ensures (q * 256 + b) / 256 == q
    ensures (q * 256 + b) % 256 == b
  {
  }

  lemma MulBetween(x: int, d: int)
    requires d > 0 && -d < x * d < d
    ensures x == 0
  {
  }

  lemma DivUnique(a: int, d: int, q: int, r: int)
    requires d > 0 && 0 <= r < d && a == q * d + r
    ensures a / d == q
  {
    var q', r' := a / d, a % d;
    assert (q' - q) * d == r - r';
    MulBetween(q' - q, d);
  }

  lemma DivDiv(a: nat, b: nat, c: nat)
    requires b > 0 && c > 0
    ensures (a / b) / c == a / (b * c)
  {
    var q := a / (b * c);
    var r := a % (b * c);
    assert a == q * (b * c) + r;
    var rb := r / b;
    assert r == rb * b + r % b;
    assert rb < c;
    assert a == (q * c + rb) * b + r % b;
    DivUnique(a, b, q * c + rb, r % b);
    DivUnique(q * c + rb, c, q, rb);
  }
}
