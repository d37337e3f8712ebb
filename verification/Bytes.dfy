/** Byte strings, digests and the hash function every other module takes as a parameter.

    SHA-256 is an arbitrary function from byte strings to 32-byte strings: nothing is assumed about it.
    A soundness statement therefore reads "the conclusion holds, or this pair of byte strings collides",
    where the pair is computed by an executable function from the data at hand.  (Merely saying that some
    collision exists would be empty: every function into a finite set has one.)
 */
module Bytes {

  newtype Byte = b: int | 0 <= b < 0x100

  type ByteSeq = seq<Byte>

  type Digest = d: seq<Byte> | |d| == 32 witness seq(32, i => 0)

  type Hash = ByteSeq -> Digest

  datatype Option<+T> = None | Some(value: T)

  datatype Result<+T, +E> = Ok(value: T) | Err(error: E)

  /** Two byte strings offered as evidence that the hash function was broken. */
  datatype Evidence = Evidence(x: ByteSeq, y: ByteSeq)

  const NO_EVIDENCE := Evidence([], [])

  predicate Collides(H: Hash, e: Evidence) {
    e.x != e.y && H(e.x) == H(e.y)
  }

  /** The first of two pieces of evidence that is a real collision. */
  function Either(H: Hash, e: Evidence, f: Evidence): Evidence {
    if Collides(H, e) then e else f
  }
}
