/** A deterministic challenge derivation: the SHA-256 digest is read as a
    big-endian integer and reduced modulo Q, so every digest maps to a
    scalar. Plugged into the same `Sign` and `Verify` as a total
    `fromRandomBytes`, it makes the challenge independent of the fallback
    draw, and completeness holds for every draw. */
module ChallengeReduction {
  import opened Group
  import opened Schnorr
  import opened SchnorrProperties

  /** The value of a byte string read as a big-endian unsigned integer. */
  function BigEndianValue(s: Bytes): nat {
    if s == [] then 0 else BigEndianValue(s[..|s| - 1]) * 0x100 + s[|s| - 1]
  }

  /** The digest-to-scalar map: the digest's integer value modulo Q. */
  function ReduceDigest(d: Digest): Option<Scalar> {
    Some(BigEndianValue(d) % Q)
  }

  /** The primitives with `from_random_bytes` replaced by `ReduceDigest`. */
  function ReducedPrimitives(serializeCompressed: Point -> Bytes, sha256: Bytes -> Digest): (prim: Primitives)
    ensures forall d: Digest :: prim.fromRandomBytes(d).Some?
  {
    Primitives(serializeCompressed, sha256, ReduceDigest)
  }

  /** With the reduced map, the challenge for (message, U) is the same for
      every fallback draw. */
  lemma ReducedChallengeIgnoresFallback(
    serializeCompressed: Point -> Bytes, sha256: Bytes -> Digest, message: Bytes, u: Point, f1: Scalar, f2: Scalar)
    ensures var prim := ReducedPrimitives(serializeCompressed, sha256);
            HashMessageAndUt(prim, message, u, f1) == HashMessageAndUt(prim, message, u, f2)
  {
    var prim := ReducedPrimitives(serializeCompressed, sha256);
    assert DigestMaps(prim, message, u);
    ChallengeDeterminedUnlessFallback(prim, message, u, f1, f2);
  }

  /** Completeness of the corrected scheme: for every key, message, nonce
      and pair of fallback draws, an honest signature verifies. */
  lemma ReducedCompleteness(
    serializeCompressed: Point -> Bytes, sha256: Bytes -> Digest, privateKey: Scalar, message: Bytes, nonce: Scalar,
    signerFallback: Scalar, verifierFallback: Scalar)
    ensures var prim := ReducedPrimitives(serializeCompressed, sha256);
            Verify(prim, Mul(Generator, privateKey), message,
                   Sign(prim, privateKey, message, nonce, signerFallback), verifierFallback)
  {
    var prim := ReducedPrimitives(serializeCompressed, sha256);
    assert DigestMaps(prim, message, Mul(Generator, nonce));
    Completeness(prim, privateKey, message, nonce, signerFallback, verifierFallback);
  }
}
