/**
 * The mock GKR proof chain: a proof is four random bytes, followed by the
 * Keccak-256 digest of the previous proof when there is one; verification
 * checks only that the proof ends with that digest.
 */
module GkrProof {
  import opened Externals

  /** Number of random bytes at the head of every proof. */
  const NONCE_LEN: nat := 4

  /** Rust's `<[u8]>::ends_with`: false when the suffix is longer than the slice. */
  function EndsWith(s: Bytes, suffix: Bytes): (r: bool)
  {
    |suffix| <= |s| && s[|s| - |suffix|..] == suffix
  }

  /**
   * `generate_gkr_proof`, with the four bytes drawn from `thread_rng`
   * passed in as `nonce`.
   */
  method GenerateGkrProof(keccak: Keccak256, previous: Option<Proof>, nonce: Bytes) returns (proof: Proof)
    requires |nonce| == NONCE_LEN
    ensures previous.None? ==> proof.bytes == nonce
    ensures previous.Some? ==> proof.bytes == nonce + keccak(previous.value.bytes)
    ensures |proof.bytes| == if previous.Some? then NONCE_LEN + DIGEST_LEN else NONCE_LEN
    ensures VerifyGkrProof(keccak, proof, previous)
  {
    var proofData := nonce;
    if previous.Some? {
      var hasher := new KeccakHasher(keccak);
      hasher.Update(previous.value.bytes);
      assert hasher.keccak == keccak && hasher.absorbed == previous.value.bytes;
      var hashResult := hasher.Finalize();
      assert hashResult == keccak(previous.value.bytes);
      proofData := proofData + hashResult;
      GkrPrefixUnchecked(keccak, nonce, previous.value);
    }
    proof := Proof(proofData);
  }

  /**
   * `verify_gkr_proof`: reject an empty proof; with a previous proof,
   * accept exactly when the proof ends with its Keccak-256 digest; without
   * one, accept.
   */
  function VerifyGkrProof(keccak: Keccak256, proof: Proof, previous: Option<Proof>): (ok: bool)
    ensures |proof.bytes| == 0 ==> !ok
    ensures previous.None? ==> (ok <==> |proof.bytes| > 0)
    ensures previous.Some? ==>
      (ok <==> |proof.bytes| >= DIGEST_LEN
               && proof.bytes[|proof.bytes| - DIGEST_LEN..] == keccak(previous.value.bytes))
  {
    if |proof.bytes| == 0 then false
    else
      match previous
      case Some(prev) => EndsWith(proof.bytes, keccak(prev.bytes))
      case None => true
  }

  /** With a previous proof, a proof shorter than a digest is rejected. */
  lemma ShortGkrProofRejected(keccak: Keccak256, proof: Proof, prev: Proof)
    requires |proof.bytes| < DIGEST_LEN
    ensures !VerifyGkrProof(keccak, proof, Some(prev))
  {
  }

  /**
   * The bytes before the digest are not checked: whatever precedes the
   * previous proof's digest, the proof is accepted.
   */
  lemma GkrPrefixUnchecked(keccak: Keccak256, prefix: Bytes, prev: Proof)
    ensures VerifyGkrProof(keccak, Proof(prefix + keccak(prev.bytes)), Some(prev))
  {
  }

  /** Changing any byte of the trailing digest of an accepted proof makes it rejected. */
  lemma GkrTamperedDigestFails(keccak: Keccak256, proof: Proof, prev: Proof, i: nat, v: byte)
    requires VerifyGkrProof(keccak, proof, Some(prev))
    requires |proof.bytes| - DIGEST_LEN <= i < |proof.bytes| && v != proof.bytes[i]
    ensures !VerifyGkrProof(keccak, Proof(proof.bytes[i := v]), Some(prev))
  {
  }

  /**
   * The demonstration run: a first proof with no predecessor and a second
   * chained to it, each verified against its predecessor.
   */
  method GkrChainDemo(keccak: Keccak256, nonce1: Bytes, nonce2: Bytes) returns (valid1: bool, valid2: bool)
    requires |nonce1| == NONCE_LEN && |nonce2| == NONCE_LEN
    ensures valid1 && valid2
  {
    var proof1 := GenerateGkrProof(keccak, None, nonce1);
    var proof2 := GenerateGkrProof(keccak, Some(proof1), nonce2);
    valid1 := VerifyGkrProof(keccak, proof1, None);
    valid2 := VerifyGkrProof(keccak, proof2, Some(proof1));
  }
}
