/**
 * Liquidity proofs: a Poseidon commitment to (previous root, new root),
 * followed by a Keccak-256 trailer that chains the proof to the bytes of
 * its predecessor; and the verifier that recomputes both parts.
 */
module LiquidityProof {
  import opened Externals

  /** Width of one encoded field element. */
  const FIELD_BYTES_LEN: nat := 32

  /**
   * Length below which the verifier rejects without comparing anything:
   * one encoded limb and a trailer. A proof of this length can be accepted
   * only when `hash_to_state` returns a single element.
   */
  const MIN_PROOF_LEN: nat := FIELD_BYTES_LEN + DIGEST_LEN

  /**
   * The fixed 32-byte encoding of a field element whose Debug text is
   * `text`: the text's first bytes, cut at 32, then zero bytes.
   */
  function FieldBytes(text: Bytes): (r: Bytes)
    ensures |r| == FIELD_BYTES_LEN
    ensures forall i :: 0 <= i < FIELD_BYTES_LEN ==> r[i] == if i < |text| then text[i] else 0
  {
    if |text| >= FIELD_BYTES_LEN then text[..FIELD_BYTES_LEN]
    else text + seq(FIELD_BYTES_LEN - |text|, _ => 0)
  }

  /**
   * `circuit_field_to_bytes`: zero a 32-byte buffer, then copy the first
   * `min(|text|, 32)` bytes of the Debug text into it.
   */
  method CircuitFieldToBytes(debug: DebugText, field: FieldElement) returns (bytes: Bytes)
    ensures bytes == FieldBytes(debug(field))
  {
    var buffer := new byte[FIELD_BYTES_LEN](_ => 0);
    var text := debug(field);
    var len := if |text| < FIELD_BYTES_LEN then |text| else FIELD_BYTES_LEN;
    var i := 0;
    while i < len
      invariant 0 <= i <= len
      invariant forall j :: 0 <= j < i ==> buffer[j] == text[j]
      invariant forall j :: i <= j < FIELD_BYTES_LEN ==> buffer[j] == 0
    {
      buffer[i] := text[i];
      i := i + 1;
    }
    bytes := buffer[..];
    assert forall j :: 0 <= j < FIELD_BYTES_LEN ==> bytes[j] == FieldBytes(text)[j];
  }

  /** Two Debug texts that agree on their first 32 bytes encode alike. */
  lemma FieldBytesIgnoresTail(text1: Bytes, text2: Bytes)
    requires |text1| >= FIELD_BYTES_LEN && |text2| >= FIELD_BYTES_LEN
    requires text1[..FIELD_BYTES_LEN] == text2[..FIELD_BYTES_LEN]
    ensures FieldBytes(text1) == FieldBytes(text2)
  {
  }

  /** A short Debug text and the same text with a zero byte appended encode alike. */
  lemma FieldBytesIgnoresTrailingZero(text: Bytes)
    requires |text| < FIELD_BYTES_LEN
    ensures FieldBytes(text + [0]) == FieldBytes(text)
  {
  }

  /** The `flat_map` of the 32-byte encoding over the hash output, in order. */
  function EncodeLimbs(debug: DebugText, limbs: seq<FieldElement>): (r: Bytes)
    ensures |r| == FIELD_BYTES_LEN * |limbs|
  {
    if limbs == [] then [] else FieldBytes(debug(limbs[0])) + EncodeLimbs(debug, limbs[1..])
  }

  /** Bytes 32k .. 32k+32 of the encoding are the encoding of limb k. */
  lemma {:induction false} EncodeLimbsAt(debug: DebugText, limbs: seq<FieldElement>, k: nat)
    requires k < |limbs|
    ensures EncodeLimbs(debug, limbs)[FIELD_BYTES_LEN * k..FIELD_BYTES_LEN * (k + 1)] == FieldBytes(debug(limbs[k]))
  {
    var head, rest := FieldBytes(debug(limbs[0])), EncodeLimbs(debug, limbs[1..]);
    assert EncodeLimbs(debug, limbs) == head + rest;
    if k > 0 {
      EncodeLimbsAt(debug, limbs[1..], k - 1);
      assert (head + rest)[FIELD_BYTES_LEN * k..FIELD_BYTES_LEN * (k + 1)]
          == rest[FIELD_BYTES_LEN * (k - 1)..FIELD_BYTES_LEN * k];
    }
  }

  /**
   * `generate_poseidon_commitment`: the encodings of every element that
   * `hash_to_state(previousRoot, newRoot)` returns, concatenated.
   */
  function PoseidonCommitment(h: Primitives, previousRoot: FieldElement, newRoot: FieldElement): (c: Bytes)
    ensures |c| == FIELD_BYTES_LEN * |h.poseidon(previousRoot, newRoot)|
    ensures |c| >= FIELD_BYTES_LEN
  {
    EncodeLimbs(h.debug, h.poseidon(previousRoot, newRoot))
  }

  /** Limb k of the commitment is the encoding of output element k. */
  lemma CommitmentLimb(h: Primitives, previousRoot: FieldElement, newRoot: FieldElement, k: nat)
    requires k < |h.poseidon(previousRoot, newRoot)|
    ensures PoseidonCommitment(h, previousRoot, newRoot)[FIELD_BYTES_LEN * k..FIELD_BYTES_LEN * (k + 1)]
         == FieldBytes(h.debug(h.poseidon(previousRoot, newRoot)[k]))
  {
    EncodeLimbsAt(h.debug, h.poseidon(previousRoot, newRoot), k);
  }

  /** What the hasher is fed before the commitment: the previous proof's bytes, if any. */
  function PreviousBytes(previous: Option<Proof>): (r: Bytes)
  {
    match previous
    case Some(p) => p.bytes
    case None => []
  }

  /** The Keccak-256 trailer binding `commitment` to the previous proof. */
  function Trailer(keccak: Keccak256, previous: Option<Proof>, commitment: Bytes): (t: Bytes)
    ensures |t| == DIGEST_LEN
  {
    keccak(PreviousBytes(previous) + commitment)
  }

  /** The bytes of the proof generated for a transition: commitment, then trailer. */
  function ProofBytes(h: Primitives, previous: Option<Proof>, previousRoot: FieldElement, newRoot: FieldElement): (r: Bytes)
  {
    var commitment := PoseidonCommitment(h, previousRoot, newRoot);
    commitment + Trailer(h.keccak, previous, commitment)
  }

  /**
   * `generate_liquidity_proof`: feed the previous proof (if any) and the
   * commitment to a Keccak hasher, then append commitment and digest.
   */
  method GenerateLiquidityProof(h: Primitives, previous: Option<Proof>, previousRoot: FieldElement, newRoot: FieldElement)
    returns (proof: Proof)
    ensures proof.bytes == ProofBytes(h, previous, previousRoot, newRoot)
    ensures |proof.bytes| == |PoseidonCommitment(h, previousRoot, newRoot)| + DIGEST_LEN
    ensures proof.bytes[..|proof.bytes| - DIGEST_LEN] == PoseidonCommitment(h, previousRoot, newRoot)
  {
    var commitment := PoseidonCommitment(h, previousRoot, newRoot);
    assert |commitment| >= FIELD_BYTES_LEN;
    var hasher := new KeccakHasher(h.keccak);
    if previous.Some? {
      hasher.Update(previous.value.bytes);
    }
    hasher.Update(commitment);
    assert hasher.absorbed == PreviousBytes(previous) + commitment;
    var hashResult := hasher.Finalize();
    assert hashResult == Trailer(h.keccak, previous, commitment);
    var proofData: Bytes := [];
    proofData := proofData + commitment;
    proofData := proofData + hashResult;
    assert proofData[..|proofData| - DIGEST_LEN] == commitment;
    proof := Proof(proofData);
  }

  /**
   * `verify_liquidity_proof`: reject an empty proof, recompute commitment
   * and trailer, reject a proof shorter than 64 bytes, then compare the
   * leading `len - 32` bytes with the commitment and the last 32 bytes
   * with the trailer.
   */
  function VerifyLiquidityProof(h: Primitives, proof: Proof, previous: Option<Proof>,
                                previousRoot: FieldElement, newRoot: FieldElement): (ok: bool)
    ensures |proof.bytes| < MIN_PROOF_LEN ==> !ok
    ensures ok <==>
      && |proof.bytes| >= MIN_PROOF_LEN
      && proof.bytes[..|proof.bytes| - DIGEST_LEN] == PoseidonCommitment(h, previousRoot, newRoot)
      && proof.bytes[|proof.bytes| - DIGEST_LEN..] == Trailer(h.keccak, previous, PoseidonCommitment(h, previousRoot, newRoot))
  {
    if |proof.bytes| == 0 then false
    else
      var expectedCommitment := PoseidonCommitment(h, previousRoot, newRoot);
      var expectedHash := Trailer(h.keccak, previous, expectedCommitment);
      if |proof.bytes| < MIN_PROOF_LEN then false
      else
        var receivedCommitment := proof.bytes[..|proof.bytes| - DIGEST_LEN];
        var receivedHash := proof.bytes[|proof.bytes| - DIGEST_LEN..];
        if receivedCommitment != expectedCommitment then false
        else if receivedHash != expectedHash then false
        else true
  }

  /** Round trip: a generated proof verifies against the inputs it was generated from. */
  lemma GeneratedProofVerifies(h: Primitives, previous: Option<Proof>, previousRoot: FieldElement, newRoot: FieldElement)
    ensures VerifyLiquidityProof(h, Proof(ProofBytes(h, previous, previousRoot, newRoot)), previous, previousRoot, newRoot)
  {
  }

  /** A proof verifies exactly when it is the proof generation produces for the same inputs. */
  lemma VerifyIffGenerated(h: Primitives, proof: Proof, previous: Option<Proof>, previousRoot: FieldElement, newRoot: FieldElement)
    ensures VerifyLiquidityProof(h, proof, previous, previousRoot, newRoot)
        <==> proof.bytes == ProofBytes(h, previous, previousRoot, newRoot)
  {
  }

  /** Tamper detection: changing any single byte of a verifying proof makes it fail. */
  lemma TamperedProofFails(h: Primitives, proof: Proof, previous: Option<Proof>,
                           previousRoot: FieldElement, newRoot: FieldElement, i: nat, v: byte)
    requires VerifyLiquidityProof(h, proof, previous, previousRoot, newRoot)
    requires i < |proof.bytes| && v != proof.bytes[i]
    ensures !VerifyLiquidityProof(h, Proof(proof.bytes[i := v]), previous, previousRoot, newRoot)
  {
  }

  /**
   * The previous proof matters only through its bytes: in particular a
   * previous proof with no bytes is indistinguishable from no previous proof.
   */
  lemma PreviousProofOnlyByBytes(h: Primitives, proof: Proof, previous1: Option<Proof>, previous2: Option<Proof>,
                                 previousRoot: FieldElement, newRoot: FieldElement)
    requires PreviousBytes(previous1) == PreviousBytes(previous2)
    ensures VerifyLiquidityProof(h, proof, previous1, previousRoot, newRoot)
        == VerifyLiquidityProof(h, proof, previous2, previousRoot, newRoot)
    ensures ProofBytes(h, previous1, previousRoot, newRoot) == ProofBytes(h, previous2, previousRoot, newRoot)
  {
  }
}
