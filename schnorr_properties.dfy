/** What `verify` decides about the output of `sign`: completeness, and
    rejection of a tampered response, a mismatched key and a tampered
    message. Each statement is exact (an if-and-only-if) and accounts for the
    random fallback of the challenge derivation: the signer and the verifier
    each draw their own fallback scalar. `Completeness` is the one-directional
    form; `HonestAcceptanceExactly` states exactly when an honest signature
    verifies. */
module SchnorrProperties {
  import opened ModArith
  import opened Group
  import opened Schnorr

  /** Whether a signer's and a verifier's challenge for the same (message, U)
      coincide: the digest maps to a scalar, or both fell back to the same draw. */
  predicate SameChallenge(prim: Primitives, message: Bytes, u: Point, signerFallback: Scalar, verifierFallback: Scalar) {
    DigestMaps(prim, message, u) || signerFallback == verifierFallback
  }

  /** The challenge depends on the fallback draw exactly when
      `from_random_bytes` rejects the digest. */
  lemma ChallengeDeterminedUnlessFallback(prim: Primitives, message: Bytes, u: Point, f1: Scalar, f2: Scalar)
    ensures HashMessageAndUt(prim, message, u, f1) == HashMessageAndUt(prim, message, u, f2)
        <==> SameChallenge(prim, message, u, f1, f2)
  {
  }

  /** The general acceptance condition: a signature made with `privateKey`
      over `message` passes verification against the public key of
      `verifierKey` and `verifierMessage` exactly when sk·c == sk'·c' in Fr,
      where c is the signer's challenge and c' the verifier's. */
  lemma AcceptanceCondition(
    prim: Primitives, privateKey: Scalar, message: Bytes, nonce: Scalar, signerFallback: Scalar,
    verifierKey: Scalar, verifierMessage: Bytes, verifierFallback: Scalar)
    ensures var sig := Sign(prim, privateKey, message, nonce, signerFallback);
            var c := HashMessageAndUt(prim, message, sig.commitment, signerFallback);
            var c' := HashMessageAndUt(prim, verifierMessage, sig.commitment, verifierFallback);
            Verify(prim, Mul(Generator, verifierKey), verifierMessage, sig, verifierFallback)
            <==> FrMul(privateKey, c) == FrMul(verifierKey, c')
  {
    var sig := Sign(prim, privateKey, message, nonce, signerFallback);
    var c := HashMessageAndUt(prim, message, sig.commitment, signerFallback);
    var c' := HashMessageAndUt(prim, verifierMessage, sig.commitment, verifierFallback);
    GeneratorMul(verifierKey, verifierKey);
    FrAddCancel(nonce, FrMul(privateKey, c), FrMul(verifierKey, c'));
  }

  /** Completeness (`test_sign_verify`): an honest signature verifies under
      the matching public key whenever the two challenges coincide. */
  lemma Completeness(
    prim: Primitives, privateKey: Scalar, message: Bytes, nonce: Scalar,
    signerFallback: Scalar, verifierFallback: Scalar)
    requires SameChallenge(prim, message, Mul(Generator, nonce), signerFallback, verifierFallback)
    ensures Verify(prim, Mul(Generator, privateKey), message,
                   Sign(prim, privateKey, message, nonce, signerFallback), verifierFallback)
  {
    var sig := Sign(prim, privateKey, message, nonce, signerFallback);
    GeneratorMul(nonce, nonce);
    assert sig.commitment == Mul(Generator, nonce);
    ChallengeDeterminedUnlessFallback(prim, message, sig.commitment, signerFallback, verifierFallback);
    AcceptanceCondition(prim, privateKey, message, nonce, signerFallback, privateKey, message, verifierFallback);
  }

  /** Exactly when an honest signature verifies: the digest maps to a
      scalar, or the private key is zero, or the signer and the verifier
      happened to draw the same fallback scalar. When `from_random_bytes`
      rejects the digest and the key is nonzero, verification fails unless
      the two independent draws agree. */
  lemma HonestAcceptanceExactly(
    prim: Primitives, privateKey: Scalar, message: Bytes, nonce: Scalar,
    signerFallback: Scalar, verifierFallback: Scalar)
    requires IsPrime(Q)
    ensures Verify(prim, Mul(Generator, privateKey), message,
                   Sign(prim, privateKey, message, nonce, signerFallback), verifierFallback)
        <==> DigestMaps(prim, message, Mul(Generator, nonce)) || privateKey == 0 || signerFallback == verifierFallback
  {
    GeneratorMul(nonce, nonce);
    if SameChallenge(prim, message, Mul(Generator, nonce), signerFallback, verifierFallback) {
      Completeness(prim, privateKey, message, nonce, signerFallback, verifierFallback);
    } else {
      AcceptanceCondition(prim, privateKey, message, nonce, signerFallback, privateKey, message, verifierFallback);
      FrMulCancel(privateKey, signerFallback, verifierFallback);
    }
  }

  /** Tampered response (`test_sign_verify_tampered_signature`): with the
      commitment of an honest signature kept, the verifier accepts a
      response exactly when it is the signer's, because s ↦ G·s is injective. */
  lemma TamperedResponse(
    prim: Primitives, privateKey: Scalar, message: Bytes, nonce: Scalar,
    signerFallback: Scalar, verifierFallback: Scalar, response: Scalar)
    requires SameChallenge(prim, message, Mul(Generator, nonce), signerFallback, verifierFallback)
    ensures var sig := Sign(prim, privateKey, message, nonce, signerFallback);
            Verify(prim, Mul(Generator, privateKey), message, Signature(sig.commitment, response), verifierFallback)
            <==> response == sig.response
  {
    Completeness(prim, privateKey, message, nonce, signerFallback, verifierFallback);
  }

  /** With the commitment of an honest signature kept and no assumption on
      the fallback draws, the verifier accepts exactly one response:
      nonce + sk·c', where c' is the verifier's own challenge. */
  lemma AcceptedResponse(
    prim: Primitives, privateKey: Scalar, message: Bytes, nonce: Scalar,
    signerFallback: Scalar, verifierFallback: Scalar, response: Scalar)
    ensures var sig := Sign(prim, privateKey, message, nonce, signerFallback);
            var c' := HashMessageAndUt(prim, message, sig.commitment, verifierFallback);
            Verify(prim, Mul(Generator, privateKey), message, Signature(sig.commitment, response), verifierFallback)
            <==> response == FrAdd(nonce, FrMul(privateKey, c'))
  {
    GeneratorMul(privateKey, privateKey);
  }

  /** The as-written fallback rejects an honest signature: when
      `from_random_bytes` rejects every digest, a signature by key 1 with
      nonce 0 and signer fallback 0 fails verification when the verifier
      draws the fallback 1. */
  lemma FallbackRejectsHonestSignature()
    ensures var prim := Primitives(_ => [], _ => seq(32, _ => 0), _ => None);
            !Verify(prim, Mul(Generator, 1), [], Sign(prim, 1, [], 0, 0), 1)
  {
    var prim := Primitives(_ => [], _ => seq(32, _ => 0), _ => None);
    var sig := Sign(prim, 1, [], 0, 0);
    assert !DigestMaps(prim, [], sig.commitment);
    DivModUnique(0, Q, 0, 0);
    DivModUnique(1, Q, 0, 1);
    assert sig.response == 0;
  }

  /** Mismatched key (`test_sign_verify_tampered_secret_key`): a signature
      made with `signingKey` verifies against the public key of
      `verifyingKey` exactly when the keys are equal or the challenge is zero. */
  lemma KeyMismatch(
    prim: Primitives, signingKey: Scalar, verifyingKey: Scalar, message: Bytes, nonce: Scalar,
    signerFallback: Scalar, verifierFallback: Scalar)
    requires IsPrime(Q)
    requires SameChallenge(prim, message, Mul(Generator, nonce), signerFallback, verifierFallback)
    ensures var sig := Sign(prim, signingKey, message, nonce, signerFallback);
            var c := HashMessageAndUt(prim, message, sig.commitment, signerFallback);
            Verify(prim, Mul(Generator, verifyingKey), message, sig, verifierFallback)
            <==> verifyingKey == signingKey || c == 0
  {
    var sig := Sign(prim, signingKey, message, nonce, signerFallback);
    var c := HashMessageAndUt(prim, message, sig.commitment, signerFallback);
    GeneratorMul(nonce, nonce);
    ChallengeDeterminedUnlessFallback(prim, message, sig.commitment, signerFallback, verifierFallback);
    AcceptanceCondition(prim, signingKey, message, nonce, signerFallback, verifyingKey, message, verifierFallback);
    FrMulCancel(c, signingKey, verifyingKey);
  }

  /** Tampered message (`test_sign_verify_tampered_message`): a signature
      over `message` verifies for `otherMessage` under the signer's public key
      exactly when the private key is zero or the verifier's challenge for
      `otherMessage` equals the signer's. */
  lemma TamperedMessage(
    prim: Primitives, privateKey: Scalar, message: Bytes, otherMessage: Bytes, nonce: Scalar,
    signerFallback: Scalar, verifierFallback: Scalar)
    requires IsPrime(Q)
    ensures var sig := Sign(prim, privateKey, message, nonce, signerFallback);
            var c := HashMessageAndUt(prim, message, sig.commitment, signerFallback);
            var c' := HashMessageAndUt(prim, otherMessage, sig.commitment, verifierFallback);
            Verify(prim, Mul(Generator, privateKey), otherMessage, sig, verifierFallback)
            <==> privateKey == 0 || c' == c
  {
    var sig := Sign(prim, privateKey, message, nonce, signerFallback);
    var c := HashMessageAndUt(prim, message, sig.commitment, signerFallback);
    var c' := HashMessageAndUt(prim, otherMessage, sig.commitment, verifierFallback);
    AcceptanceCondition(prim, privateKey, message, nonce, signerFallback, privateKey, otherMessage, verifierFallback);
    FrMulCancel(privateKey, c, c');
  }
}
