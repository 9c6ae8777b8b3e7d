/** SHA-256 is injective for this model, so a digest is what it hashes. */
module Digests {

  datatype Digest = Sha256(data: string)
}
