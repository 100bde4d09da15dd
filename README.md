# Schnorr signatures over BLS12-381 G1, modelled in Dafny

This project models `SchnorrSig` (`src/schnorr_sig/schnorr.rs`). It is a
Schnorr signature scheme over the G1 group of BLS12-381, made
non-interactive with the Fiat-Shamir transform. The scheme has four
operations:

- key generation: `pk = G·sk`;
- signing: the commitment `U = G·r`, the challenge `c = H(m, U)` and the response `z = r + sk·c`;
- challenge derivation: SHA-256 over the message followed by the compressed encoding of `U`, mapped to a scalar by `from_random_bytes`;
- verification: the check `G·z == U + pk·c`.

The model proves what `verify` decides about the output of `sign`.

## The abstraction

- **Group** (`group.dfy`). G1 is modelled as a cyclic group of order `Q`,
  the BLS12-381 scalar-field modulus, in discrete-log form. A point is its
  exponent with respect to the generator. The group law adds exponents
  modulo `Q`. Multiplying a point by a scalar multiplies exponents.
  Projective and affine coordinates are not modelled: converting between
  them leaves the point unchanged, so the model has a single point type.
- **Primitives** (`schnorr.dfy`). `serialize_compressed`, SHA-256 and
  `from_random_bytes` are the three function-typed fields of a
  `Primitives` value. Nothing is assumed about them. `from_random_bytes`
  returns an `Option` scalar.
- **Randomness.** Every draw from `thread_rng` is an explicit parameter:
  the private key, the signing nonce, and the fallback scalar that
  `hash_message_and_ut` uses when `from_random_bytes` rejects the digest.
  The signer and the verifier each receive their own fallback, because
  each call of `hash_message_and_ut` draws a fresh one. `unwrap_or` draws
  that scalar even when it is not used, which makes no difference to the
  result.
- **Arithmetic** (`mod_arith.dfy`). This module proves Euclidean-division
  facts and Euclid's lemma for an arbitrary prime. Cancellation modulo `Q`
  then follows.

Results about the random fallback:

- Completeness holds when the digest maps to a scalar, or when both calls
  draw the same fallback.
- `SchnorrProperties.HonestAcceptanceExactly` shows when an honest
  signature verifies: the digest maps to a scalar, the key is zero, or the
  two fallback draws agree. In every other case an honest signature is
  rejected, so the fallback breaks completeness.

The code falls back to a random scalar, and the model follows the code.
`challenge_reduction.dfy` gives the corrected derivation: the digest's
big-endian value modulo `Q`. It plugs into the same `Sign` and `Verify`,
and with it completeness holds for every draw.

## Model

| member | source | states |
|---|---|---|
| `Group.GeneratorMul` | src/schnorr_sig/schnorr.rs:23 | The generator multiplied by `s` has discrete log `s`. So `s ↦ G·s` is injective on Fr. |
| `Group.MulDistributes` | src/schnorr_sig/schnorr.rs:79-83 | Scalar multiplication distributes over Fr addition: `p·(a+b) = p·a + p·b`. |
| `Group.MulCompose` | src/schnorr_sig/schnorr.rs:81 | Multiplying by `a` and then by `b` is multiplying by `a·b`. |
| `Group.FrAddCancel` | src/schnorr_sig/schnorr.rs:48 | Fr addition cancels: `n + x = n + y` exactly when `x = y`. |
| `Group.FrMulCancel` | src/schnorr_sig/schnorr.rs:48 | If `Q` is prime, a nonzero factor cancels: `a·x = a·y` exactly when `x = y`. |
| `Schnorr.GenerateKeypair` | src/schnorr_sig/schnorr.rs:19-34 | The private key is the draw. The pair satisfies `pk = G·sk`, so `sk` is the discrete log of `pk`. |
| `Schnorr.HashMessageAndUt` | src/schnorr_sig/schnorr.rs:53-66 | If `from_random_bytes` accepts SHA-256(message ++ serialize(U)), the challenge is that scalar (message hashed first, then `U`). Otherwise it is the fallback draw. |
| `Schnorr.Sign` | src/schnorr_sig/schnorr.rs:36-51 | `U = G·nonce`. `z = nonce + sk·c` in Fr, where `c` is the challenge for this message and `U` with the signer's fallback. The signature satisfies `G·z == U + (G·sk)·c`. |
| `Schnorr.Verify` | src/schnorr_sig/schnorr.rs:68-87 | `verify` is total. It accepts exactly when the response equals `log U + log pk · c` in Fr, which is `G·z == U + pk·c` with `c` recomputed by the verifier. |
| `SchnorrProperties.ChallengeDeterminedUnlessFallback` | src/schnorr_sig/schnorr.rs:64-65 | Two derivations for the same `(message, U)` agree for every pair of fallbacks exactly when `from_random_bytes` accepts the digest. Otherwise they agree only when the fallbacks are equal. |
| `SchnorrProperties.AcceptanceCondition` | src/schnorr_sig/schnorr.rs:68-87 | A signature by `sk` on `m` verifies under `G·sk'` for `m'` exactly when `sk·c = sk'·c'`. Here `c` is the signer's challenge and `c'` the verifier's. |
| `SchnorrProperties.Completeness` | src/schnorr_sig/schnorr.rs:104-113 | If the digest maps to a scalar, or both calls draw the same fallback, an honest signature verifies under the matching public key. |
| `SchnorrProperties.HonestAcceptanceExactly` | src/schnorr_sig/schnorr.rs:64-65 | If `Q` is prime, an honest signature verifies exactly when the digest maps to a scalar, the key is zero, or the two fallback draws are equal. |
| `SchnorrProperties.TamperedResponse` | src/schnorr_sig/schnorr.rs:128-138 | If the two challenges agree (the digest maps, or both calls draw the same fallback), then with the honest commitment kept a response is accepted exactly when it equals the signer's response. |
| `SchnorrProperties.AcceptedResponse` | src/schnorr_sig/schnorr.rs:128-138 | For any fallback draws, with the honest commitment kept, a response is accepted exactly when it equals `nonce + sk·c'`, where `c'` is the verifier's own challenge. |
| `SchnorrProperties.KeyMismatch` | src/schnorr_sig/schnorr.rs:140-151 | If `Q` is prime and the challenges agree, a signature by `sk2` verifies under `G·sk1` exactly when `sk1 = sk2` or the challenge is zero. |
| `SchnorrProperties.TamperedMessage` | src/schnorr_sig/schnorr.rs:115-126 | If `Q` is prime, a signature on `m` verifies for `m'` under the signer's key exactly when the key is zero or the challenge for `m'` equals the signer's. |
| `SchnorrTests.TestSignVerify` | src/schnorr_sig/schnorr.rs:104-113 | A generated key signs "Hello world!", and the signature verifies whenever the two challenges agree. |
| `SchnorrTests.TestSignVerifyTamperedMessage` | src/schnorr_sig/schnorr.rs:115-126 | The signature of "Hello world!" is rejected for "Hello world!!" when the key is nonzero and the challenges differ. |
| `SchnorrTests.TestSignVerifyTamperedSignature` | src/schnorr_sig/schnorr.rs:128-138 | When the two challenges agree (the digest maps, or both calls draw the same fallback), replacing the response with any other scalar makes verification fail. |
| `SchnorrTests.TestSignVerifyTamperedSecretKey` | src/schnorr_sig/schnorr.rs:140-151 | When the two challenges agree (the digest maps, or both calls draw the same fallback) and the challenge is nonzero, a signature by a second, different key is rejected under the first public key. |
| `SchnorrProperties.FallbackRejectsHonestSignature` | src/schnorr_sig/schnorr.rs:64-65 | With a `from_random_bytes` that rejects every digest, an honest signature by key 1 (nonce 0, signer fallback 0) fails verification when the verifier draws fallback 1. |
| `ChallengeReduction.ReducedPrimitives` | src/schnorr_sig/schnorr.rs:64-65 | The corrected digest-to-scalar map (the digest's big-endian value modulo `Q`) accepts every digest. |
| `ChallengeReduction.ReducedChallengeIgnoresFallback` | src/schnorr_sig/schnorr.rs:53-66 | With the corrected map, the challenge for a (message, U) pair is the same for every fallback draw. |
| `ChallengeReduction.ReducedCompleteness` | src/schnorr_sig/schnorr.rs:104-113 | With the corrected map, an honest signature verifies for every key, message, nonce and pair of fallback draws. |

## Findings

| source | as written | input that shows it | evidently intended | confidence | as-written member | corrected member |
|---|---|---|---|---|---|---|
| src/schnorr_sig/schnorr.rs:64-65 | When `from_random_bytes` rejects the digest, the challenge is a fresh random scalar, drawn separately by the signer and by the verifier. | A digest that `from_random_bytes` rejects, key 1, nonce 0, signer fallback 0, verifier fallback 1: the honest signature is rejected. | A total, deterministic digest-to-scalar map, so that the signer and the verifier always derive the same challenge. | not executed | `SchnorrProperties.FallbackRejectsHonestSignature` | `ChallengeReduction.ReducedCompleteness` |

`SchnorrProperties.HonestAcceptanceExactly` also belongs to the as-written half: for every nonzero key, an honest signature whose digest is rejected verifies only when the two fallback draws happen to agree.

## Left out

- The base-field Montgomery configuration `FqConfig`/`Fq` (lines 10-16): the protocol never uses it.
- The BLS12-381 group law and its coordinates: G1 is the abstract group of order `Q` in discrete-log form. The projective-to-affine conversions are the identity.
- SHA-256, the compressed point encoding and `from_random_bytes`: these are uninterpreted functions. The model does not characterise when `from_random_bytes` fails. The serialisation failure behind `.expect` cannot happen for a group point, so serialisation is total.
- `thread_rng`: each draw is an explicit parameter. Uniformity and independence of the draws are not modelled.
- `main` and `println!` (lines 90-98): input/output glue.
- Unforgeability, collision resistance of the hash, hardness of the discrete logarithm, and constant-time execution: these are computational or side-channel claims, not functional ones. So the tampered-message case takes "the challenges differ" as a hypothesis instead of deriving it from collision resistance.
- Group.FrMulCancel: takes the primality of `Q` as a hypothesis (`requires IsPrime(Q)`). Checking a 255-bit primality certificate is out of reach of the verifier. Euclid's lemma is proved for every prime.
- SchnorrProperties.HonestAcceptanceExactly: assumes `IsPrime(Q)`, as for `Group.FrMulCancel`.
- SchnorrProperties.KeyMismatch: assumes `IsPrime(Q)`, as for `Group.FrMulCancel`.
- SchnorrProperties.TamperedMessage: assumes `IsPrime(Q)`, as for `Group.FrMulCancel`.
- SchnorrTests.TestSignVerifyTamperedMessage: assumes `IsPrime(Q)`, and that the two challenges differ.
- SchnorrTests.TestSignVerifyTamperedSecretKey: assumes `IsPrime(Q)`, that the challenge is nonzero, and that the two challenges agree (the digest maps, or both calls draw the same fallback).
- SchnorrTests.TestSignVerifyTamperedSignature: assumes that the two challenges agree. `SchnorrProperties.AcceptedResponse` covers the case where they differ.
