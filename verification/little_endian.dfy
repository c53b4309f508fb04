/**
 Little-endian byte encoding of unsigned integers, as Rust's
 `u64::to_le_bytes` produces it, and its inverse `u64::from_le_bytes`.
 Byte i of the encoding of x is (x / 256^i) mod 256.
 */
module LittleEndian {
  import opened Bytes

  /** Number of bytes in the encoding of a `u64`. */
  const U64_BYTES: nat := 8

  function Pow256(n: nat): (p: nat)
    ensures p > 0
  {
    if n == 0 then 1 else 256 * Pow256(n - 1)
  }

  /** Reference definition: byte i of the little-endian form of x. */
  function LeByte(x: nat, i: nat): uint8
  {
    (x / Pow256(i)) % 256
  }

  /** Dividing by a then by b is dividing by a * b. */
  lemma DivDiv(x: nat, a: nat, b: nat)
    requires a > 0 && b > 0
    ensures x / a / b == x / (a * b)
  {
    var q, r := x / a, x % a;
    var q2, r2 := q / b, q % b;
    assert x == q * a + r;
    assert q == q2 * b + r2;
    Regroup(q2, b, r2, a, r);
    RemainderBound(r2, a, r, b);
    DivUnique(x, a * b, q2, r2 * a + r);
  }

  lemma Regroup(q2: int, b: int, r2: int, a: int, r: int)
    ensures (q2 * b + r2) * a + r == q2 * (a * b) + (r2 * a + r)
  {
  }

  lemma RemainderBound(r2: nat, a: nat, r: nat, b: nat)
    requires r2 < b && r < a
    ensures r2 * a + r < a * b
  {
    assert (b - 1 - r2) * a >= 0;
    assert (b - 1 - r2) * a == a * b - a - r2 * a;
  }

  /** Euclidean division has exactly one quotient. */
  lemma DivUnique(x: nat, d: nat, q: int, r: int)
    requires d > 0 && 0 <= r < d && x == q * d + r
    ensures x / d == q
  {
    var q', r' := x / d, x % d;
    assert x == q' * d + r';
    assert (q - q') * d == r' - r by {
      assert (q - q') * d == q * d - q' * d;
    }
    if q > q' {
      AtLeastOneMultiple(q - q', d);
    } else if q < q' {
      AtLeastOneMultiple(q' - q, d);
    }
  }

  lemma AtLeastOneMultiple(k: int, d: nat)
    requires k >= 1
    ensures k * d >= d
  {
  }

  /** Shifting right by one byte moves every byte of the encoding down one place. */
  lemma LeByteShift(x: nat, i: nat)
    requires i >= 1
    ensures LeByte(x / 256, i - 1) == LeByte(x, i)
  {
    DivDiv(x, 256, Pow256(i - 1));
  }

  /** The n low-order bytes of x, least significant first, produced by
      repeated remainder and division by 256. Bits above 8 * n are dropped. */
  function EncodeLe(x: nat, n: nat): (bs: seq<uint8>)
    ensures |bs| == n
    ensures forall i | 0 <= i < n :: bs[i] == LeByte(x, i)
    decreases n
  {
    if n == 0 then []
    else
      var rest := EncodeLe(x / 256, n - 1);
      assert forall i | 1 <= i < n :: rest[i - 1] == LeByte(x, i) by {
        forall i | 1 <= i < n ensures rest[i - 1] == LeByte(x, i) {
          LeByteShift(x, i);
        }
      }
      [x % 256] + rest
  }

  /** The unsigned value of a little-endian byte string. */
  function DecodeLe(bs: seq<uint8>): (x: nat)
    ensures x < Pow256(|bs|)
  {
    if |bs| == 0 then 0 else bs[0] + 256 * DecodeLe(bs[1..])
  }

  lemma {:induction false} DecodeEncode(x: nat, n: nat)
    requires x < Pow256(n)
    ensures DecodeLe(EncodeLe(x, n)) == x
    decreases n
  {
    if n > 0 {
      var bs := EncodeLe(x, n);
      assert bs[1..] == EncodeLe(x / 256, n - 1);
      DecodeEncode(x / 256, n - 1);
    }
  }

  lemma {:induction false} EncodeDecode(bs: seq<uint8>)
    ensures EncodeLe(DecodeLe(bs), |bs|) == bs
    decreases |bs|
  {
    if |bs| > 0 {
      var y := DecodeLe(bs[1..]);
      var x := bs[0] + 256 * y;
      assert x % 256 == bs[0] && x / 256 == y;
      EncodeDecode(bs[1..]);
      assert bs == [bs[0]] + bs[1..];
    }
  }

  lemma Pow256U64()
    ensures Pow256(U64_BYTES) == 0x1_0000_0000_0000_0000
  {
  }

  /** Rust `u64::to_le_bytes`. */
  function ToLeBytes(x: uint64): (bs: seq<uint8>)
    ensures |bs| == U64_BYTES
    ensures forall i | 0 <= i < U64_BYTES :: bs[i] == LeByte(x, i)
  {
    EncodeLe(x, U64_BYTES)
  }

  /** Rust `u64::from_le_bytes`: every 8-byte string denotes a `u64`. */
  function FromLeBytes(bs: seq<uint8>): (x: uint64)
    requires |bs| == U64_BYTES
  {
    Pow256U64();
    DecodeLe(bs)
  }

  /** Decoding the encoding of a `u64` gives it back. */
  lemma ToLeBytesRoundTrip(x: uint64)
    ensures FromLeBytes(ToLeBytes(x)) == x
  {
    Pow256U64();
    DecodeEncode(x, U64_BYTES);
  }

  /** Encoding the value of any 8 bytes gives the same 8 bytes back. */
  lemma FromLeBytesRoundTrip(bs: seq<uint8>)
    requires |bs| == U64_BYTES
    ensures ToLeBytes(FromLeBytes(bs)) == bs
  {
    EncodeDecode(bs);
  }

  /** Every 8-byte string is the encoding of its own value. */
  lemma FromLeBytesRoundTripAll()
    ensures forall bs | |bs| == U64_BYTES :: ToLeBytes(FromLeBytes(bs)) == bs
  {
    forall bs | |bs| == U64_BYTES ensures ToLeBytes(FromLeBytes(bs)) == bs {
      FromLeBytesRoundTrip(bs);
    }
  }

  /** Two `u64` values have the same encoding exactly when they are equal. */
  lemma ToLeBytesInjective(a: uint64, b: uint64)
    ensures ToLeBytes(a) == ToLeBytes(b) <==> a == b
  {
    if ToLeBytes(a) == ToLeBytes(b) {
      ToLeBytesRoundTrip(a);
      ToLeBytesRoundTrip(b);
    }
  }
}
