# Order validation program, modelled in Dafny

This project models the order-validation program that the perpetual-futures
order engine runs inside the SP1 zkVM (`order-engine/program/src/lib.rs`).
The program reads an order commitment (order hash, nullifier, claimed balance
hash), the order bytes, the trader's `u64` balance, the `u64` required margin,
and a list of spent nullifiers. The prover supplies every one of these values,
and none of them is public by itself. The program evaluates three checks
independently and commits four values in a fixed order; only these bind the
proof:

1. the commitment,
2. the nullifier,
3. the SHA-256 hash of the balance's 8-byte little-endian encoding,
4. the `ValidationResult` record `{is_valid, commitment_valid, balance_sufficient, nullifier_unused}`.

Modules:

- `Bytes` (`bytes.dfy`) holds `u8`, `u64` and `[u8; 32]` as the subset types
  `uint8`, `uint64` and `Digest`. It also holds the element-by-element array
  equality `BytesEqual`.
- `LittleEndian` (`little_endian.dfy`) holds `u64::to_le_bytes` as
  `ToLeBytes`, its inverse `FromLeBytes`, and the two round trips between them.
  Both are built from general n-byte forms, `EncodeLe` and `DecodeLe`. The
  encoding is proved equal to a closed-form reference, `LeByte(x, i) = (x / 256^i) % 256`.
- `OrderValidation` (`order_validation.dfy`) holds the records, the checks
  `ValidateCommitment`, `Contains` and `Validate`, and the whole program as
  `Run`. `Run` maps an input record to the ordered list of committed values.

SHA-256 is a parameter `sha: seq<uint8> -> Digest`. That is any total pure
function from byte strings to 32-byte digests. Such a function is
deterministic, so the same order data and commitment always give the same
verdict. Nothing else is assumed about it; in particular it is not assumed to
be injective or collision resistant.

## Model

| member | source | states |
|---|---|---|
| `Bytes.BytesEqual` | order-engine/program/src/lib.rs:73 | Comparing two byte arrays position by position is true exactly when the arrays are equal. |
| `LittleEndian.EncodeLe` | order-engine/program/src/lib.rs:86 | Encoding of a value into n bytes by repeated remainder and division by 256: the result has n bytes, and byte i is (x / 256^i) mod 256. |
| `LittleEndian.ToLeBytes` | order-engine/program/src/lib.rs:86 | `u64::to_le_bytes` yields exactly 8 bytes, and byte i of the result is (balance / 256^i) mod 256. |
| `LittleEndian.DecodeEncode` | order-engine/program/src/lib.rs:86 | Decoding the n-byte little-endian encoding of any x < 256^n gives x back. |
| `LittleEndian.EncodeDecode` | order-engine/program/src/lib.rs:86 | Encoding the value of any byte string, at its own length, gives the same bytes back. |
| `LittleEndian.ToLeBytesRoundTrip` | order-engine/program/src/lib.rs:86 | `from_le_bytes(to_le_bytes(x)) == x` for every `u64` x. |
| `LittleEndian.FromLeBytesRoundTrip` | order-engine/program/src/lib.rs:86 | `to_le_bytes(from_le_bytes(b)) == b` for every 8 bytes b. |
| `LittleEndian.ToLeBytesInjective` | order-engine/program/src/lib.rs:84-87 | Two balances have the same 8-byte encoding if and only if they are equal. |
| `OrderValidation.ValidateCommitment` | order-engine/program/src/lib.rs:68-81 | The commitment check hashes the order bytes (`hash_data`) and compares the digest with the commitment. It passes if and only if the hash of the order bytes equals the supplied 32-byte commitment. |
| `OrderValidation.HashBalance` | order-engine/program/src/lib.rs:84-88 | The balance hash is the hash of every 8-byte string whose little-endian value is the balance. Only one such string exists, the balance's `to_le_bytes`. |
| `OrderValidation.Contains` | order-engine/program/src/lib.rs:47 | The linear scan of the spent-nullifier list finds the nullifier if and only if it is an element of the list. |
| `OrderValidation.Validate` | order-engine/program/src/lib.rs:40-58 | `commitment_valid` holds iff hash(order data) equals the commitment. `balance_sufficient` holds iff balance >= margin, so equality counts as sufficient. `nullifier_unused` holds iff the nullifier is not in the spent list, so an empty list always passes. `is_valid` holds iff all three hold. |
| `OrderValidation.Run` | order-engine/program/src/lib.rs:40-64 | The output has exactly four items in this order: the commitment, the nullifier, the hash of the balance's little-endian bytes, and a result record whose four flags mean what `Validate` states. |
| `OrderValidation.OutputRevealsOnly` | order-engine/program/src/lib.rs:61-64 | Two inputs give identical public output iff they agree on the commitment, the nullifier, the balance hash and the verdict. So the raw balance, the margin, the order bytes and the nullifier list reach the output only through those values. |
| `OrderValidation.ClaimedBalanceHashIgnored` | order-engine/program/src/lib.rs:39-64 | Replacing the input commitment's `balance_hash` field with any other digest leaves the output unchanged. The field is never read or compared, and the committed balance hash is the one computed from the private balance. |
| `OrderValidation.EveryVerdictReachable` | order-engine/program/src/lib.rs:40-58 | For any hash function, every combination of the three flags is produced by some input, with `is_valid` their conjunction. No check short-circuits or masks another. |
| `OrderValidation.BalanceHashPreimage` | order-engine/program/src/lib.rs:84-87 | The balance hash is the hash of exactly 8 bytes, where byte i is (balance / 256^i) mod 256, and those bytes decode back to the balance. |
| `OrderValidation.BalanceHashCollisionIsShaCollision` | order-engine/program/src/lib.rs:84-87 | If two distinct balances have the same balance hash, then SHA-256 maps two different 8-byte strings to the same digest. |
| `OrderValidation.OpaqueHashMayRevealBalance` | order-engine/program/src/lib.rs:83-87 | The comment there says the balance is hashed without revealing it. Under a zero-padding function, which is a legal value of the opaque hash, the balance can be decoded from the committed balance hash. So hiding cannot be proved here. |
| `OrderValidation.EmptySpentListPassesAnyNullifier` | order-engine/program/src/lib.rs:37-47 | Replacing the spent list with the empty list leaves the first three committed values and the other two flags unchanged, and it always reports the nullifier as unused. |

## Left out

- Host I/O (`env::read`, `env::commit`) and its serialisation format are not modelled. The inputs are one record, `ProgramInput`, and the committed values are an ordered list of `PublicValue`.
- SHA-256 internals come from the `sha2` crate, which is not part of this model. The hash is a function parameter with no assumed properties.
- SP1 proof generation, the `#[sp1_main]` entry macro and `no_std` are not modelled. They belong to the proving system, not to the validation logic.
- `OrderValidation.HashData` carries no contract of its own because it only applies the hash. What it computes is stated by `ValidateCommitment`, whose row cites `hash_data` too.
- OrderValidation.OutputRevealsOnly — This shows only that the private inputs reach the output through the balance hash and the verdict. It does not show that the balance stays hidden, and with an opaque hash no model can show that (`OpaqueHashMayRevealBalance`). The committed balance hash is an unsalted SHA-256 of a `u64`, so with the real hash anyone can find a balance by hashing candidate values.
- OrderValidation.Validate — The field comment says the nullifier "prevents double-spending". The committed `nullifier_unused` flag does not do that by itself. The spent list is chosen by the prover and is never committed, so an empty list always passes (`EmptySpentListPassesAnyNullifier`). Whoever verifies the proof must check the committed nullifier against the real spent set; that check is outside this program.
- The price oracle, vAMM pricing, funding, matching and settlement of the wider order engine are not modelled. None of that code is part of this model.
