/**
 The order-validation program run inside the zkVM. It reads an order
 commitment, the order data, a balance, a margin and a spent-nullifier list,
 all supplied by the prover; evaluates three independent checks; and commits
 four public values: the commitment, the nullifier, the hash of the balance,
 and the verdict record. Only those four values bind the proof.

 SHA-256 is a parameter: any total function from byte strings to 32-byte
 digests. Being a pure function it is deterministic; nothing else about it,
 in particular no injectivity, is assumed.
 */
module OrderValidation {
  import opened Bytes
  import LittleEndian

  /** SHA-256 over a byte string, as an opaque deterministic function. */
  type Sha256 = seq<uint8> -> Digest

  /** The order commitment read first from the host; its commitment and
      nullifier are later made public. */
  datatype OrderCommitment = OrderCommitment(
    commitment: Digest,   // hash of the order data
    nullifier: Digest,    // identifies the order for double-spend checks
    balanceHash: Digest   // claimed balance hash; never read by the program
  )

  /** The verdict record committed as the last public value. */
  datatype ValidationResult = ValidationResult(
    isValid: bool,
    commitmentValid: bool,
    balanceSufficient: bool,
    nullifierUnused: bool
  )

  /** Everything the program reads, in reading order: the order commitment,
      then the order bytes, balance, required margin and spent nullifiers.
      The prover chooses every field. */
  datatype ProgramInput = ProgramInput(
    order: OrderCommitment,
    orderData: seq<uint8>,
    userBalance: uint64,
    requiredMargin: uint64,
    nullifierSet: seq<Digest>
  )

  /** One value written to the public output stream. */
  datatype PublicValue =
    | CommittedDigest(digest: Digest)
    | CommittedResult(result: ValidationResult)

  function HashData(sha: Sha256, data: seq<uint8>): Digest
  {
    sha(data)
  }

  /** The balance hash is the hash of the one 8-byte string whose
      little-endian value is the balance. */
  function HashBalance(sha: Sha256, balance: uint64): (d: Digest)
    ensures forall bytes | |bytes| == LittleEndian.U64_BYTES && LittleEndian.FromLeBytes(bytes) == balance
              :: d == sha(bytes)
  {
    LittleEndian.FromLeBytesRoundTripAll();
    sha(LittleEndian.ToLeBytes(balance))
  }

  /** The order data hashes to the commitment. */
  function ValidateCommitment(sha: Sha256, orderData: seq<uint8>, commitment: Digest): (valid: bool)
    ensures valid <==> sha(orderData) == commitment
  {
    BytesEqual(HashData(sha, orderData), commitment)
  }

  /** `Vec::contains`: a front-to-back scan comparing each element with the
      needle. */
  function Contains(xs: seq<Digest>, x: Digest): (found: bool)
    ensures found <==> x in xs
    decreases |xs|
  {
    if |xs| == 0 then false
    else BytesEqual(xs[0], x) || Contains(xs[1..], x)
  }

  /** The three checks and their conjunction. Each flag is computed whatever
      the others turn out to be. */
  function Validate(sha: Sha256, input: ProgramInput): (r: ValidationResult)
    ensures r.commitmentValid <==> sha(input.orderData) == input.order.commitment
    ensures r.balanceSufficient <==> input.userBalance >= input.requiredMargin
    ensures r.nullifierUnused <==> input.order.nullifier !in input.nullifierSet
    ensures input.nullifierSet == [] ==> r.nullifierUnused
    ensures r.isValid <==> r.commitmentValid && r.balanceSufficient && r.nullifierUnused
  {
    var commitmentValid := ValidateCommitment(sha, input.orderData, input.order.commitment);
    var balanceSufficient := input.userBalance >= input.requiredMargin;
    var nullifierUnused := !Contains(input.nullifierSet, input.order.nullifier);
    var isValid := commitmentValid && balanceSufficient && nullifierUnused;
    ValidationResult(isValid, commitmentValid, balanceSufficient, nullifierUnused)
  }

  /** The whole program: the public output stream it commits. */
  function Run(sha: Sha256, input: ProgramInput): (out: seq<PublicValue>)
    ensures |out| == 4
    ensures out[0] == CommittedDigest(input.order.commitment)
    ensures out[1] == CommittedDigest(input.order.nullifier)
    ensures out[2] == CommittedDigest(sha(LittleEndian.ToLeBytes(input.userBalance)))
    ensures out[3].CommittedResult?
    ensures out[3].result.commitmentValid <==> sha(input.orderData) == input.order.commitment
    ensures out[3].result.balanceSufficient <==> input.userBalance >= input.requiredMargin
    ensures out[3].result.nullifierUnused <==> input.order.nullifier !in input.nullifierSet
    ensures out[3].result.isValid <==>
              && sha(input.orderData) == input.order.commitment
              && input.userBalance >= input.requiredMargin
              && input.order.nullifier !in input.nullifierSet
  {
    var result := Validate(sha, input);
    var balanceHash := HashBalance(sha, input.userBalance);
    [ CommittedDigest(input.order.commitment),
      CommittedDigest(input.order.nullifier),
      CommittedDigest(balanceHash),
      CommittedResult(result) ]
  }

  /** Two runs commit the same output exactly when they agree on the public
      commitment and nullifier, on the hash of the balance, and on the
      verdict: no raw balance, margin, order byte or spent nullifier reaches
      the output by any other route. */
  lemma OutputRevealsOnly(sha: Sha256, a: ProgramInput, b: ProgramInput)
    ensures Run(sha, a) == Run(sha, b) <==>
              && a.order.commitment == b.order.commitment
              && a.order.nullifier == b.order.nullifier
              && HashBalance(sha, a.userBalance) == HashBalance(sha, b.userBalance)
              && Validate(sha, a) == Validate(sha, b)
  {
  }

  /** The claimed balance hash in the public commitment has no influence on
      the output: the committed balance hash is always the one computed from
      the private balance, and the claimed one is never compared with it. */
  lemma ClaimedBalanceHashIgnored(sha: Sha256, input: ProgramInput, claimed: Digest)
    ensures Run(sha, input.(order := input.order.(balanceHash := claimed))) == Run(sha, input)
  {
  }

  /** No check short-circuits another: every combination of the three flags
      is reported by some input, whatever SHA-256 is. */
  lemma EveryVerdictReachable(sha: Sha256, commitmentOk: bool, balanceOk: bool, nullifierOk: bool)
    ensures exists input :: Validate(sha, input)
              == ValidationResult(commitmentOk && balanceOk && nullifierOk, commitmentOk, balanceOk, nullifierOk)
  {
    var data: seq<uint8> := [];
    var h := sha(data);
    var other: Digest := h[0 := if h[0] == 0 then 1 else 0];
    assert other[0] != h[0];
    var nullifier: Digest := seq(DIGEST_LENGTH, _ => 0);
    var input := ProgramInput(
      OrderCommitment(if commitmentOk then h else other, nullifier, nullifier),
      data,
      if balanceOk then 1 else 0,
      1,
      if nullifierOk then [] else [nullifier]);
    assert Validate(sha, input)
        == ValidationResult(commitmentOk && balanceOk && nullifierOk, commitmentOk, balanceOk, nullifierOk);
  }

  /** The balance hash is the hash of exactly the 8 little-endian bytes of the
      balance, and those bytes decode back to the balance. */
  lemma BalanceHashPreimage(sha: Sha256, balance: uint64)
    ensures var bytes := LittleEndian.ToLeBytes(balance);
      && HashBalance(sha, balance) == sha(bytes)
      && |bytes| == 8
      && (forall i | 0 <= i < 8 :: bytes[i] == (balance / LittleEndian.Pow256(i)) % 256)
      && LittleEndian.FromLeBytes(bytes) == balance
  {
    LittleEndian.ToLeBytesRoundTrip(balance);
  }

  /** Distinct balances are hashed from distinct inputs, so two distinct
      balances with equal balance hashes exhibit a SHA-256 collision. */
  lemma BalanceHashCollisionIsShaCollision(sha: Sha256, a: uint64, b: uint64)
    requires a != b
    ensures HashBalance(sha, a) == HashBalance(sha, b) ==>
              && LittleEndian.ToLeBytes(a) != LittleEndian.ToLeBytes(b)
              && sha(LittleEndian.ToLeBytes(a)) == sha(LittleEndian.ToLeBytes(b))
  {
    LittleEndian.ToLeBytesInjective(a, b);
  }

  /** A 32-byte function that keeps its input's first bytes and pads with
      zeros. It is a legal value of the opaque hash parameter. */
  const PaddingHash: Sha256 :=
    bytes => if |bytes| >= DIGEST_LENGTH then bytes[..DIGEST_LENGTH]
             else bytes + seq(DIGEST_LENGTH - |bytes|, _ => 0)

  /** With the hash opaque, the committed balance hash cannot be shown to hide
      the balance: under the padding function the balance can be read back
      from the committed value. */
  lemma OpaqueHashMayRevealBalance(input: ProgramInput)
    ensures LittleEndian.FromLeBytes(Run(PaddingHash, input)[2].digest[..LittleEndian.U64_BYTES])
              == input.userBalance
  {
    var bytes := LittleEndian.ToLeBytes(input.userBalance);
    assert Run(PaddingHash, input)[2].digest[..LittleEndian.U64_BYTES] == bytes;
    LittleEndian.ToLeBytesRoundTrip(input.userBalance);
  }

  /** The spent list is a prover-chosen input and is never committed. Replacing
      it with the empty list leaves the commitment, nullifier, balance hash and
      the other two flags as they were, and always reports the nullifier
      unused. So the committed flag alone does not prevent double spending. */
  lemma EmptySpentListPassesAnyNullifier(sha: Sha256, input: ProgramInput)
    ensures var honest, forged := Run(sha, input), Run(sha, input.(nullifierSet := []));
      && forged[..3] == honest[..3]
      && forged[3].result.nullifierUnused
      && forged[3].result.commitmentValid == honest[3].result.commitmentValid
      && forged[3].result.balanceSufficient == honest[3].result.balanceSufficient
  {
  }
}
