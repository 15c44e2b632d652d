/**
 * Value types shared by the liquidity circuit code, and the three external
 * primitives it calls without defining them: the Poseidon-M31 sponge
 * (`hash_to_state`), Keccak-256 from `tiny_keccak`, and the `Debug`
 * formatting of a field element. Each primitive is a function-typed value
 * whose only assumed property is the one the circuit code relies on.
 */
module Externals {

  /** Rust's `u8`. */
  type byte = b: int | 0 <= b < 256

  type Bytes = seq<byte>

  /** Rust's `u32`, the type of a chain identifier. */
  type ChainId = c: int | 0 <= c < 0x1_0000_0000

  /** Order of the BN254 scalar field, the circuit field of `BN254Config`. */
  const BN254_SCALAR_MODULUS: int := 21888242871839275222246405745257275088548364400416034343698204186575808495617

  /**
   * An element of the BN254 scalar field, written as its canonical residue.
   * The liquidity code only compares elements and builds the constant 0,
   * so no field arithmetic is modelled.
   */
  type FieldElement = x: int | 0 <= x < BN254_SCALAR_MODULUS

  datatype Option<T> = None | Some(value: T)

  /** `expander_transcript::Proof`: a plain byte vector. */
  datatype Proof = Proof(bytes: Bytes)

  /** Length of a Keccak-256 digest. */
  const DIGEST_LEN: nat := 32

  /**
   * Keccak-256 with the original Keccak padding (`Keccak::v256`), as a
   * function of the whole message; the only property used is that every
   * digest is 32 bytes long.
   */
  type Keccak256 = k: Bytes -> Bytes | forall m :: |k(m)| == DIGEST_LEN
    witness (m: Bytes) => seq(DIGEST_LEN, _ => 0)

  /**
   * `PoseidonM31Params::new(api, 8, 16, 8, 14).hash_to_state` applied to
   * the two constant inputs [previous, new] and folded back to concrete
   * field elements with `constant_value`. The state it returns is never
   * empty: callers index element 0.
   */
  type PoseidonHash = p: (FieldElement, FieldElement) -> seq<FieldElement> | forall a, b :: |p(a, b)| > 0
    witness (a: FieldElement, b: FieldElement) => [a]

  /** The bytes of `format!("{:?}", field)`. Nothing is assumed about them. */
  type DebugText = FieldElement -> Bytes

  /** The external primitives that one run of the code is parameterised by. */
  datatype Primitives = Primitives(poseidon: PoseidonHash, keccak: Keccak256, debug: DebugText)

  /**
   * A streaming `tiny_keccak` hasher: `update` appends to the message and
   * `finalize` hashes everything fed so far.
   */
  class KeccakHasher {
    const keccak: Keccak256
    var absorbed: Bytes

    constructor (keccak: Keccak256)
      ensures this.keccak == keccak && absorbed == []
    {
      this.keccak := keccak;
      absorbed := [];
    }

    method Update(data: Bytes)
      modifies this
      ensures absorbed == old(absorbed) + data
    {
      absorbed := absorbed + data;
    }

    method Finalize() returns (digest: Bytes)
      ensures digest == keccak(absorbed) && |digest| == DIGEST_LEN
    {
      digest := keccak(absorbed);
    }
  }
}
