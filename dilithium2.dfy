/** The Dilithium2 (ML-DSA) sizes the marshalers are written for. */
module Dilithium2 {
  /** Bytes of a packed public key. */
  const PUBLIC_KEY_SIZE: nat := 1312
  /** Bytes of a packed secret key. */
  const SECRET_KEY_SIZE: nat := 2560
  /** Upper bound on the bytes of a signature. */
  const MAX_SIGNATURE_SIZE: nat := 2420
  /** Bytes of the cell into which the engine writes the signature length. */
  const LENGTH_CELL_SIZE: nat := 4
}
