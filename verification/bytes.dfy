/**
 Fixed-width integer and byte-array types of the order-validation program,
 and the element-by-element equality Rust uses for byte arrays.
 */
module Bytes {

  /** Rust `u8`. */
  type uint8 = x: int | 0 <= x < 0x100

  /** Rust `u64`: every balance and margin of the program lies in [0, 2^64). */
  type uint64 = x: int | 0 <= x < 0x1_0000_0000_0000_0000

  /** Number of bytes in a SHA-256 digest and in every `[u8; 32]` field. */
  const DIGEST_LENGTH: nat := 32

  /** Rust `[u8; 32]`: commitments, nullifiers and hashes. */
  type Digest = s: seq<uint8> | |s| == DIGEST_LENGTH witness seq(DIGEST_LENGTH, _ => 0)

  /** `PartialEq` on byte arrays: the arrays agree position by position.
      Equal to sequence equality whatever the contents. */
  function BytesEqual(a: seq<uint8>, b: seq<uint8>): (eq: bool)
    requires |a| == |b|
    ensures eq <==> a == b
    decreases |a|
  {
    if |a| == 0 then true
    else
      assert a == [a[0]] + a[1..] && b == [b[0]] + b[1..];
      a[0] == b[0] && BytesEqual(a[1..], b[1..])
  }
}
