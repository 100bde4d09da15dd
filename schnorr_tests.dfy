/** The unit tests of the signature module, stated as lemmas over every
    draw of the random number generator. Each draw of `thread_rng` is a
    parameter; where a test relies on the two challenge derivations agreeing,
    or on the hash separating two messages, that is a hypothesis. */
module SchnorrTests {
  import opened ModArith
  import opened Group
  import opened Schnorr
  import opened SchnorrProperties

  /** The bytes of "Hello world!". */
  const HelloWorld: Bytes := [72, 101, 108, 108, 111, 32, 119, 111, 114, 108, 100, 33]

  /** The bytes of "Hello world!!". */
  const HelloWorldTampered: Bytes := HelloWorld + [33]

  /** `test_sign_verify`: the signature of "Hello world!" verifies under the generated public key. */
  lemma TestSignVerify(
    prim: Primitives, keyDraw: Scalar, nonce: Scalar, signerFallback: Scalar, verifierFallback: Scalar)
    requires SameChallenge(prim, HelloWorld, Mul(Generator, nonce), signerFallback, verifierFallback)
    ensures var kp := GenerateKeypair(keyDraw);
            Verify(prim, kp.publicKey, HelloWorld, Sign(prim, kp.privateKey, HelloWorld, nonce, signerFallback), verifierFallback)
  {
    Completeness(prim, keyDraw, HelloWorld, nonce, signerFallback, verifierFallback);
  }

  /** `test_sign_verify_tampered_message`: the signature of "Hello world!"
      is rejected for "Hello world!!" when the key is nonzero and the two
      messages give different challenges. */
  lemma TestSignVerifyTamperedMessage(
    prim: Primitives, keyDraw: Scalar, nonce: Scalar, signerFallback: Scalar, verifierFallback: Scalar)
    requires IsPrime(Q)
    requires keyDraw != 0
    requires HashMessageAndUt(prim, HelloWorldTampered, Mul(Generator, nonce), verifierFallback)
          != HashMessageAndUt(prim, HelloWorld, Mul(Generator, nonce), signerFallback)
    ensures var kp := GenerateKeypair(keyDraw);
            !Verify(prim, kp.publicKey, HelloWorldTampered, Sign(prim, kp.privateKey, HelloWorld, nonce, signerFallback), verifierFallback)
  {
    GeneratorMul(nonce, nonce);
    TamperedMessage(prim, keyDraw, HelloWorld, HelloWorldTampered, nonce, signerFallback, verifierFallback);
  }

  /** `test_sign_verify_tampered_signature`: replacing the response by a
      freshly drawn scalar other than the signer's makes verification fail. */
  lemma TestSignVerifyTamperedSignature(
    prim: Primitives, keyDraw: Scalar, nonce: Scalar, signerFallback: Scalar, verifierFallback: Scalar,
    responseDraw: Scalar)
    requires SameChallenge(prim, HelloWorld, Mul(Generator, nonce), signerFallback, verifierFallback)
    requires responseDraw != Sign(prim, keyDraw, HelloWorld, nonce, signerFallback).response
    ensures var kp := GenerateKeypair(keyDraw);
            var ut := Sign(prim, kp.privateKey, HelloWorld, nonce, signerFallback).commitment;
            !Verify(prim, kp.publicKey, HelloWorld, Signature(ut, responseDraw), verifierFallback)
  {
    TamperedResponse(prim, keyDraw, HelloWorld, nonce, signerFallback, verifierFallback, responseDraw);
  }

  /** `test_sign_verify_tampered_secret_key`: a signature made with a second
      generated key is rejected under the first public key when the two
      private keys differ and the challenge is nonzero. */
  lemma TestSignVerifyTamperedSecretKey(
    prim: Primitives, keyDraw: Scalar, tamperedKeyDraw: Scalar, nonce: Scalar,
    signerFallback: Scalar, verifierFallback: Scalar)
    requires IsPrime(Q)
    requires keyDraw != tamperedKeyDraw
    requires SameChallenge(prim, HelloWorld, Mul(Generator, nonce), signerFallback, verifierFallback)
    requires HashMessageAndUt(prim, HelloWorld, Mul(Generator, nonce), signerFallback) != 0
    ensures var pk := GenerateKeypair(keyDraw).publicKey;
            var tamperedSk := GenerateKeypair(tamperedKeyDraw).privateKey;
            !Verify(prim, pk, HelloWorld, Sign(prim, tamperedSk, HelloWorld, nonce, signerFallback), verifierFallback)
  {
    GeneratorMul(nonce, nonce);
    KeyMismatch(prim, tamperedKeyDraw, keyDraw, HelloWorld, nonce, signerFallback, verifierFallback);
  }
}
