# Hash-chained liquidity proof ledger — a Dafny model

This project models the runtime core of the CrossSwap `foundry/circuit` crate:

- **Liquidity proofs** (`liquidity_proof.dfy`, module `LiquidityProof`).
  - A field element is encoded as 32 bytes: the bytes of its `Debug` text, cut at 32 and zero-padded.
  - The Poseidon commitment to (previous root, new root) is the in-order concatenation of the encodings of every element that `hash_to_state` returns.
  - A proof is that commitment followed by a Keccak-256 trailer over the previous proof's bytes (if any) and the commitment.
  - The verifier recomputes both parts. It rejects an empty proof, a proof shorter than 64 bytes, a commitment mismatch or a trailer mismatch.
- **The `LiquidityBackend` ledger** (`liquidity_backend.dfy`, module `Backend`).
  - It is a class with two maps keyed by the `u32` chain id: (previous root, current root) and (previous proof, current proof).
  - `UpdateLiquidity` writes both maps under one chain id.
  - `VerifyLiquidity` is a read-only lookup that delegates to the proof verifier.
- **The mock GKR proof chain** (`gkr_proof.dfy`, module `GkrProof`).
  - A proof is four nonce bytes, followed by the Keccak-256 digest of the previous proof when there is one.
  - Verification only checks that the proof ends with that digest.

The external primitives are function-typed values collected in `Externals.Primitives` (`externals.dfy`):
- Poseidon-M31 `hash_to_state` with parameters (8, 16, 8, 14). The only assumption is that its output is non-empty, because the backend indexes element 0.
- Keccak-256 with the original Keccak padding. The only assumption is that every digest is 32 bytes.
- `Debug` formatting of a field element. Nothing is assumed about it.

The streaming `tiny_keccak` hasher is a small class. `update` appends to the absorbed message, and `finalize` hashes everything absorbed so far. Field elements are canonical residues modulo the BN254 scalar field order. Only equality and the constant 0 are used.

The model follows what the code does. In two places this differs from the code's own comments:
- **Debug-text encoding.** The comment at `liquidity_proof.rs:11` says the field element is converted to its big-endian internal representation. The code at lines 12-16 actually copies the bytes of its `Debug` text. This encoding is not injective: see `FieldBytesIgnoresTail` and `FieldBytesIgnoresTrailingZero`.
- **Previous state never advances.** The comment at `liquidity_backend.rs:30` says the current root becomes the previous one after an update. The code instead reads the FIRST component of each stored pair as the previous root and the previous proof (`liquidity_backend.rs:31`, `:58`). So every stored previous root stays 0, and every stored previous proof stays absent (`LiquidityBackend.PreviousNeverAdvances`, kept by `UpdateLiquidity`).

The stored current root is `hash_to_state(previous root, value)[0]` (`liquidity_backend.rs:48-53`, stored at `:71`).

## Model

| member | source | states |
|---|---|---|
| LiquidityProof.FieldBytes | foundry/circuit/src/liquidity_proof.rs:8-18 | the encoding is exactly 32 bytes; byte i is the Debug text's byte i when i is below the text's length, and 0 otherwise |
| LiquidityProof.CircuitFieldToBytes | foundry/circuit/src/liquidity_proof.rs:8-18 | filling a zeroed 32-byte buffer with the first min(len, 32) Debug-text bytes yields exactly `FieldBytes` of that text |
| LiquidityProof.FieldBytesIgnoresTail | foundry/circuit/src/liquidity_proof.rs:12-16 | two Debug texts that agree on their first 32 bytes get the same encoding (the encoding is not injective) |
| LiquidityProof.FieldBytesIgnoresTrailingZero | foundry/circuit/src/liquidity_proof.rs:12-16 | a text shorter than 32 bytes and the same text with a zero byte appended get the same encoding |
| LiquidityProof.EncodeLimbs | foundry/circuit/src/liquidity_proof.rs:31-35 | the flat_map of the encoding over n field elements has length 32·n |
| LiquidityProof.EncodeLimbsAt | foundry/circuit/src/liquidity_proof.rs:31-35 | bytes 32k..32k+32 of the flat_map are the encoding of element k (order is preserved) |
| LiquidityProof.PoseidonCommitment | foundry/circuit/src/liquidity_proof.rs:22-36 | the commitment is 32 bytes per hash output element, and so at least 32 bytes |
| LiquidityProof.CommitmentLimb | foundry/circuit/src/liquidity_proof.rs:31-35 | limb k of the commitment is the encoding of `hash_to_state(prev, new)[k]` |
| LiquidityProof.Trailer | foundry/circuit/src/liquidity_proof.rs:58-67 | the Keccak trailer over previous-proof bytes then commitment is 32 bytes |
| LiquidityProof.GenerateLiquidityProof | foundry/circuit/src/liquidity_proof.rs:39-81 | the proof is commitment ++ Keccak(prev.bytes? ++ commitment); its length is the commitment's plus 32; its first len-32 bytes are the commitment |
| LiquidityProof.VerifyLiquidityProof | foundry/circuit/src/liquidity_proof.rs:84-147 | rejects every proof shorter than 64 bytes (the empty one included); accepts iff the leading len-32 bytes equal the recomputed commitment and the last 32 equal the recomputed trailer, so each mismatch alone rejects |
| LiquidityProof.GeneratedProofVerifies | foundry/circuit/src/liquidity_proof.rs:39-147 | round trip: the generated proof verifies against the same previous proof and roots |
| LiquidityProof.VerifyIffGenerated | foundry/circuit/src/liquidity_proof.rs:39-147 | a proof verifies if and only if its bytes are exactly the generated proof's bytes for the same inputs |
| LiquidityProof.TamperedProofFails | foundry/circuit/src/liquidity_proof.rs:128-146 | changing any single byte of a verifying proof makes verification fail |
| LiquidityProof.PreviousProofOnlyByBytes | foundry/circuit/src/liquidity_proof.rs:58-65 | generation and verification see the previous proof only through its bytes (an empty previous proof acts as no previous proof); the config arguments play no part |
| Backend.LiquidityBackend.constructor | foundry/circuit/src/liquidity_backend.rs:16-21 | both maps start empty; the key-set invariant and the previous-at-default invariant hold |
| Backend.LiquidityBackend.VerifyLiquidity | foundry/circuit/src/liquidity_backend.rs:77-104 | a chain id with no state rejects every proof; an accepted proof has at least 64 bytes; otherwise the result is the proof verifier's on the stored roots and stored previous proof |
| Backend.LiquidityBackend.UpdateLiquidity | foundry/circuit/src/liquidity_backend.rs:23-75 | returns Some(proof); inserts into both maps under the same chain id only, keeping their key sets equal; previous root and proof are read from the first stored component (default 0 / none); the stored root is hash_to_state(prev, value)[0]; the returned proof verifies right away; verification on other chains is unchanged; previous roots stay 0 and previous proofs stay absent |
| Backend.LiquidityUpdateScenario | foundry/circuit/src/tests/liquidity_tests.rs:11-33 | after a first and a second update of chain 1 each returned proof verifies; chain 2, never updated, rejects |
| GkrProof.GenerateGkrProof | foundry/circuit/src/proof.rs:6-26 | without a previous proof the proof is the 4 nonce bytes; with one it is the nonce followed by Keccak(prev.bytes), 36 bytes; the result verifies against the same previous proof |
| GkrProof.VerifyGkrProof | foundry/circuit/src/proof.rs:28-50 | an empty proof is rejected; with no previous proof every non-empty proof is accepted; with one, accepted iff the proof ends with Keccak(prev.bytes) |
| GkrProof.ShortGkrProofRejected | foundry/circuit/src/proof.rs:38-47 | with a previous proof, a proof shorter than 32 bytes is rejected |
| GkrProof.GkrPrefixUnchecked | foundry/circuit/src/proof.rs:38-47 | any bytes followed by Keccak(prev.bytes) are accepted: the nonce is not bound |
| GkrProof.GkrTamperedDigestFails | foundry/circuit/src/proof.rs:38-47 | changing any byte of the trailing digest of an accepted proof makes it rejected |
| GkrProof.GkrChainDemo | foundry/circuit/src/main.rs:25-39 | a first proof with no predecessor and a second chained to it both verify |

## Left out

- Poseidon-M31 internals and the constraint-builder API (`API::new`, `constant`, `constant_value`, `PoseidonM31Params::new`) are external library code. `hash_to_state` followed by `constant_value` is one function-typed parameter that returns concrete field elements. The `.expect`/`.unwrap` on `constant_value` cannot fail for the constant inputs used here, so it is not a behaviour of the model.
- The first `hash_to_state` call in `update_liquidity` (`liquidity_backend.rs:43-46`) is not modelled. Its result is overwritten by the identical second call.
- Keccak-256 internals (`tiny_keccak`) are external. Keccak is a function-typed parameter with 32-byte output. The streaming hasher hashes the concatenation of what it was fed.
- `format!("{:?}", field)` is library formatting. It is a function-typed parameter.
- `thread_rng()` in `generate_gkr_proof` is randomness. The four bytes are the `nonce` parameter.
- The `config`/`field_config` arguments of every function are unused by the code. They are dropped from the Dafny signatures.
- All `println!` diagnostics are output only.
- BN254 field arithmetic is not modelled. Only equality and the constant 0 are used.
- `circuit.rs` and `shared_liquidity.rs` only emit constraints into an external builder and are not part of this model. `lib.rs` holds module declarations only.
- The second unit test (`test_poseidon_state_root_transition`) asserts a property of the real Poseidon permutation. This model treats Poseidon as an arbitrary function, so it cannot be stated.
- Concurrency is not modelled. `update_liquidity` takes `&mut self`, so updates are exclusive by construction.
