/** The Schnorr signature protocol of `SchnorrSig`: key generation, signing,
    Fiat-Shamir challenge derivation and verification, over the group of
    module Group. SHA-256, the compressed point encoding and the
    digest-to-scalar map are external primitives and enter as the fields of
    a `Primitives` value about which nothing is assumed. Every random draw
    (private key, nonce, the fallback scalar of the challenge derivation) is
    an explicit parameter. */
module Schnorr {
  import opened Group

  type Byte = b: int | 0 <= b < 0x100

  /** A byte string: a message, or a serialised point. */
  type Bytes = seq<Byte>

  /** The length in bytes of a SHA-256 digest. */
  const DigestLength: nat := 32

  /** A SHA-256 digest. */
  type Digest = d: Bytes | |d| == DigestLength witness seq(32, _ => 0)

  datatype Option<T> = None | Some(value: T)

  /** The external primitives the protocol is built on, left uninterpreted:
      - `serializeCompressed`: the compressed encoding of a point (the
        encoding never fails for a point of the group);
      - `sha256`: the SHA-256 digest of a byte string;
      - `fromRandomBytes`: Fr's `from_random_bytes`, which maps some digests
        to a scalar and rejects the others. */
  datatype Primitives = Primitives(
    serializeCompressed: Point -> Bytes,
    sha256: Bytes -> Digest,
    fromRandomBytes: Digest -> Option<Scalar>)

  /** A SHA-256 hasher fed by successive `Update` calls: its state is the
      input absorbed so far. */
  datatype Sha256 = Sha256(absorbed: Bytes) {
    function Update(data: Bytes): Sha256 {
      Sha256(absorbed + data)
    }

    function Finalize(prim: Primitives): Digest {
      prim.sha256(absorbed)
    }
  }

  const NewSha256: Sha256 := Sha256([])

  /** A private key and the public key that belongs to it. */
  datatype KeyPair = KeyPair(privateKey: Scalar, publicKey: Point)

  /** A signature: the commitment U and the response z. */
  datatype Signature = Signature(commitment: Point, response: Scalar)

  /** The key-pair invariant: the public key is the generator times the private key. */
  predicate ValidKeyPair(kp: KeyPair) {
    kp.publicKey == Mul(Generator, kp.privateKey)
  }

  /** The digest the challenge is taken from: SHA-256 over the message
      followed by the compressed encoding of the commitment. */
  function ChallengeDigest(prim: Primitives, message: Bytes, u: Point): Digest {
    prim.sha256(message + prim.serializeCompressed(u))
  }

  /** Whether `from_random_bytes` accepts the challenge digest of (message, u). */
  predicate DigestMaps(prim: Primitives, message: Bytes, u: Point) {
    prim.fromRandomBytes(ChallengeDigest(prim, message, u)).Some?
  }

  /** `generate_keypair`, with the private key drawn by the caller. */
  function GenerateKeypair(privateKeyDraw: Scalar): (kp: KeyPair)
    ensures kp.privateKey == privateKeyDraw
    ensures ValidKeyPair(kp)
    ensures kp.publicKey.log == kp.privateKey
  {
    GeneratorMul(privateKeyDraw, privateKeyDraw);
    // the projective-to-affine conversion leaves the point unchanged
    var publicKey := Mul(Generator, privateKeyDraw);
    KeyPair(privateKeyDraw, publicKey)
  }

  /** `hash_message_and_ut`: the Fiat-Shamir challenge for (message, u). When
      `from_random_bytes` rejects the digest, the result is the freshly drawn
      scalar `fallback`, which the caller supplies. */
  function HashMessageAndUt(prim: Primitives, message: Bytes, u: Point, fallback: Scalar): (c: Scalar)
    ensures DigestMaps(prim, message, u) ==> prim.fromRandomBytes(ChallengeDigest(prim, message, u)) == Some(c)
    ensures !DigestMaps(prim, message, u) ==> c == fallback
  {
    var uSerializedBytes: Bytes := [] + prim.serializeCompressed(u);
    var hashResult := NewSha256.Update(message).Update(uSerializedBytes).Finalize(prim);
    assert NewSha256.Update(message).Update(uSerializedBytes).absorbed == message + prim.serializeCompressed(u);
    match prim.fromRandomBytes(hashResult)
    case Some(s) => s
    case None => fallback
  }

  /** `sign`, with the nonce and the challenge's fallback scalar drawn by the
      caller. The signature satisfies the verification equation
      G·z == U + (G·sk)·c for the challenge c the signer derived. */
  function Sign(prim: Primitives, privateKey: Scalar, message: Bytes, nonce: Scalar, fallback: Scalar): (sig: Signature)
    ensures sig.commitment.log == nonce
    ensures sig.response == FrAdd(nonce, FrMul(privateKey, HashMessageAndUt(prim, message, sig.commitment, fallback)))
    ensures Mul(Generator, sig.response)
         == Add(sig.commitment, Mul(Mul(Generator, privateKey), HashMessageAndUt(prim, message, sig.commitment, fallback)))
  {
    var uT := Mul(Generator, nonce);
    var c := HashMessageAndUt(prim, message, uT, fallback);
    var alphaZ := FrAdd(nonce, FrMul(privateKey, c));
    GeneratorMul(nonce, nonce);
    MulDistributes(Generator, nonce, FrMul(privateKey, c));
    MulCompose(Generator, privateKey, c);
    Signature(uT, alphaZ)
  }

  /** `verify`: recompute the challenge c from the message and the
      commitment, and accept exactly when G·z == U + pk·c, that is when the
      response is log U + log pk · c in Fr. The verifier's own fallback
      scalar is a parameter, independent of the signer's. */
  function Verify(prim: Primitives, publicKey: Point, message: Bytes, signature: Signature, fallback: Scalar): (ok: bool)
    ensures ok <==> (signature.response
           == FrAdd(signature.commitment.log, FrMul(publicKey.log, HashMessageAndUt(prim, message, signature.commitment, fallback))))
  {
    var c := HashMessageAndUt(prim, message, signature.commitment, fallback);
    var g := Mul(Generator, signature.response);
    // `ScalarField::from(c)` is the identity on a scalar
    var uC := Mul(publicKey, c);
    var gPrime := Add(signature.commitment, uC);
    GeneratorMul(signature.response, signature.response);
    g == gPrime
  }
}
