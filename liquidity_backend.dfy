/**
 * `LiquidityBackend`: per-chain liquidity state roots and proofs, kept in
 * two maps keyed by chain id, updated together by `update_liquidity` and
 * read by `verify_liquidity`.
 */
module Backend {
  import opened Externals
  import opened LiquidityProof

  /** (previous_state_root, current_state_root) per chain. */
  type StateMap = map<ChainId, (FieldElement, FieldElement)>

  /** (previous_proof, current_proof) per chain. */
  type ProofMap = map<ChainId, (Option<Proof>, Proof)>

  /**
   * The previous root an update uses: the FIRST component of the stored
   * pair, or 0 for a chain seen for the first time.
   */
  function PreviousRootOf(states: StateMap, chainId: ChainId): (r: FieldElement)
  {
    if chainId in states then states[chainId].0 else 0
  }

  /**
   * The previous proof an update uses: the FIRST component of the stored
   * pair, or none for a chain seen for the first time.
   */
  function PreviousProofOf(proofs: ProofMap, chainId: ChainId): (r: Option<Proof>)
  {
    if chainId in proofs then proofs[chainId].0 else None
  }

  class LiquidityBackend {
    var liquidityStates: StateMap
    var proofs: ProofMap

    /** Both maps always hold the same chain ids. */
    ghost predicate Valid()
      reads this
    {
      liquidityStates.Keys == proofs.Keys
    }

    /**
     * Every stored previous root is 0 and every stored previous proof is
     * absent. Because updates read the first component of the stored pair,
     * this holds after any sequence of updates.
     */
    ghost predicate PreviousNeverAdvances()
      reads this
    {
      && (forall c :: c in liquidityStates ==> liquidityStates[c].0 == 0)
      && (forall c :: c in proofs ==> proofs[c].0 == None)
    }

    /** `new`: no chain has state or proofs. */
    constructor ()
      ensures liquidityStates == map[] && proofs == map[]
      ensures Valid() && PreviousNeverAdvances()
    {
      liquidityStates := map[];
      proofs := map[];
    }

    /**
     * `verify_liquidity`: look up the chain's stored roots and previous
     * proof and delegate to the liquidity proof verifier; a chain with no
     * stored state rejects every proof.
     */
    function VerifyLiquidity(h: Primitives, chainId: ChainId, proof: Proof): (ok: bool)
      reads this
      ensures chainId !in liquidityStates ==> !ok
      ensures ok ==> |proof.bytes| >= MIN_PROOF_LEN
      ensures chainId in liquidityStates ==>
        (ok <==> VerifyLiquidityProof(h, proof, PreviousProofOf(proofs, chainId),
                                      liquidityStates[chainId].0, liquidityStates[chainId].1))
    {
      if chainId !in liquidityStates then false
      else
        var (prevState, expectedState) := liquidityStates[chainId];
        var previousProof := PreviousProofOf(proofs, chainId);
        VerifyLiquidityProof(h, proof, previousProof, prevState, expectedState)
    }

    /**
     * `update_liquidity`: read the previous root and previous proof from the
     * first components of the stored pairs, hash (previous root, new value)
     * into the new root, generate a proof chained to the previous proof, and
     * store both pairs under `chainId`. Always returns a proof.
     */
    method UpdateLiquidity(h: Primitives, chainId: ChainId, newLiquidityState: FieldElement)
      returns (result: Option<Proof>)
      requires Valid()
      modifies this
      ensures Valid()
      ensures result.Some?
      ensures
        var previousRoot := PreviousRootOf(old(liquidityStates), chainId);
        var newRoot := h.poseidon(previousRoot, newLiquidityState)[0];
        var previousProof := PreviousProofOf(old(proofs), chainId);
        && liquidityStates == old(liquidityStates)[chainId := (previousRoot, newRoot)]
        && proofs == old(proofs)[chainId := (previousProof, result.value)]
        && result.value.bytes == ProofBytes(h, previousProof, previousRoot, newRoot)
      ensures VerifyLiquidity(h, chainId, result.value)
      ensures forall c, p :: c != chainId ==> VerifyLiquidity(h, c, p) == old(VerifyLiquidity(h, c, p))
      ensures old(PreviousNeverAdvances()) ==>
        && PreviousNeverAdvances()
        && liquidityStates[chainId] == (0, h.poseidon(0, newLiquidityState)[0])
        && proofs[chainId].0 == None
    {
      var previousStateRoot: FieldElement := 0;
      if chainId in liquidityStates {
        previousStateRoot := liquidityStates[chainId].0;
      }
      var newStateRoot := h.poseidon(previousStateRoot, newLiquidityState)[0];
      var previousProof: Option<Proof> := None;
      if chainId in proofs {
        previousProof := proofs[chainId].0;
      }
      var proof := GenerateLiquidityProof(h, previousProof, previousStateRoot, newStateRoot);
      liquidityStates := liquidityStates[chainId := (previousStateRoot, newStateRoot)];
      proofs := proofs[chainId := (previousProof, proof)];
      GeneratedProofVerifies(h, previousProof, previousStateRoot, newStateRoot);
      result := Some(proof);
    }
  }

  /**
   * The unit test of the backend: two updates of chain 1, each proof
   * verifying right after its update; chain 2, never updated, rejects.
   */
  method LiquidityUpdateScenario(h: Primitives) returns (valid1: bool, valid2: bool, otherChain: bool)
    ensures valid1 && valid2 && !otherChain
  {
    var backend := new LiquidityBackend();
    var proof1 := backend.UpdateLiquidity(h, 1, 1000);
    valid1 := backend.VerifyLiquidity(h, 1, proof1.value);
    otherChain := backend.VerifyLiquidity(h, 2, proof1.value);
    var proof2 := backend.UpdateLiquidity(h, 1, 2000);
    valid2 := backend.VerifyLiquidity(h, 1, proof2.value);
  }
}
