# Feldman distributed key generation, modelled in Dafny

This project models the DKG library of `dkg` (`index.js`). Each member of a
group makes a contribution. A contribution is a secret polynomial of
`threshold` coefficients. The member publishes the public keys of the
coefficients as a *verification vector*, and sends every member one *share*:
the polynomial evaluated at that member's id. A receiver checks its share
against the sender's verification vector (Feldman's check). It then adds all
its received shares into its group secret-key share. Anyone can add all
verification vectors into the *group verification vector*, whose entry 0 is
the group public key. A *zero contribution* has its constant coefficient forced
to zero, so it re-randomises shares without moving the group public key.

The library calls bls-lib for every curve operation. bls-lib is not part of
this model. Module `Curve` (`curve.dfy`) stands in for it:

- scalars (secret keys, ids, shares) are integers modulo a prime `P`;
- a point (public key) is represented by its residue modulo `P`, and the point
  group operation is addition modulo `P` (every cyclic group of order `P` is
  isomorphic to this one);
- `getPublicKey` is `PublicOf(x) = G * x mod P`, with `G = 2`. The inverse of
  `G` is explicit, so `PublicOf` is provably one-to-one;
- `secretKeyShare(sk, svec, id)` is Horner evaluation of `svec` at `id`
  (`SecretKeyShare`), and `publicKeyShare(pk, vvec, id)` is the same
  evaluation with group operations (`PublicKeyShare`).

`P` is a stand-in prime (2^61 − 1). The proofs use its value only through
`GInverse * G == P + 1`, which makes `PublicOf` one-to-one. The CSPRNG is a
parameter `rng`: the i-th draw of `secretKeySetByCSPRNG` is `rng[i]`.

Module `Dkg` (`dkg.dfy`) models `index.js`. The four operations that build
arrays in loops are methods with loops, proved against specification
functions. `verifyContributionShare` is a function. The caller's array that
`addContributionShares` pops is a class, `ShareArray`.

In three places the code is looser than the protocol's usual description. The
model follows the code:

- `addContributionShares` on an empty array raises no error and returns
  `undefined`. The model returns `None`.
- `addVerificationVectors` does not check that the vectors have equal length.
  The result is as long as the longest input. Entry `i` sums the inputs that
  have an entry `i`.
- `generateZeroContribution` always pushes the zero coefficient. With a
  threshold of 0 its verification vector therefore has one entry, not zero.

## Model

| member | source | states |
|---|---|---|
| `Curve.PublicKeys` | index.js:18-26 | the verification vector has one entry per secret coefficient, and entry `i` is the public key of coefficient `i` |
| `Curve.PublicOfInjective` | index.js:122-125 | two secret keys with equal public keys are equal, so comparing public keys compares the shares |
| `Curve.PublicKeyShareOfPublicKeys` | index.js:118-125 | evaluating the verification vector at `id` in the group gives the public key of the secret polynomial's value at `id` |
| `Curve.SecretKeyShareAtZero` | index.js:60-62 | a polynomial evaluated at 0 is its constant term, so the zero contribution shares the secret 0 |
| `Dkg.GenerateContribution` | index.js:10-41 | `threshold` commitments, entry `i` the public key of draw `i` in draw order; one share per id in id order, share `j` the polynomial's value at `ids[j]`; every share passes the Feldman check |
| `Dkg.GenerateZeroContribution` | index.js:52-92 | `max(threshold, 1)` commitments, entry 0 the identity `PublicOf(0)`, entry `i` the public key of draw `i - 1`; one share per id, the value at `ids[j]` of a polynomial whose constant term is 0; every share passes the Feldman check |
| `Dkg.ShareAmong` | index.js:29-33 | one share per id, in the order of the ids, each the polynomial's value at that id, and each passing the Feldman check against the polynomial's commitments |
| `Dkg.VerifyIffHonest` | index.js:118-131 | against the commitments to a polynomial, `verifyContributionShare` is true exactly when the share equals the polynomial's value at the receiver's id (honest shares pass; any other share fails) |
| `Dkg.ShareArray.Pop` | index.js:101 | `pop` removes and returns the last share, or returns nothing from an empty array |
| `Dkg.AddContributionShares` | index.js:100-107 | an empty array yields nothing; otherwise the result is the field sum of all shares, and the caller's array loses its last element |
| `Dkg.SumSharesRemove` | index.js:101-105 | taking one share out of the sum and adding it last leaves the sum unchanged (the popped share is added first) |
| `Dkg.SumSharesPermutation` | index.js:100-107 | the sum of shares does not depend on their order |
| `Dkg.AddVector` | index.js:141-149 | one outer pass: the result is as long as the longer vector, each entry the group sum of the entries present at that index |
| `Dkg.AddVectorStep` | index.js:142-148 | one inner step: at an index the group vector already has, the entry is added in; past its end, the group vector grows by that entry |
| `Dkg.GroupVectorColumns` | index.js:138-152 | the group vector is as long as the longest input, and entry `i` is the group sum of entry `i` over every input that has one |
| `Dkg.AddVerificationVectors` | index.js:138-152 | the result's length is the maximum input length, entry `i` is the column sum of the inputs, and it equals the left-to-right sum of the vectors (empty input gives an empty vector) |
| `Dkg.PublicKeyShareOfAddVector` | index.js:138-152 | evaluating the sum of two vectors at an id gives the group sum of the two evaluations |
| `Dkg.AggregatedShareVerifies` | test/index.js:36-62 | if each share passes the Feldman check against its sender's vector, the sum of the shares passes it against the group vector |
| `Dkg.RoundAggregationCorrect` | test/index.js:22-62 | after a round in which all shares verify, the public key of each member's summed share equals the group vector evaluated at that member's id |
| `Dkg.GroupPublicKeyOfSecrets` | example.js:77-83 | entry 0 of the group vector of honest contributions is the public key of the sum of the contributors' constant terms |
| `Dkg.ZeroContributionsKeepGroupKey` | index.js:60-66 | adding verification vectors whose entry 0 is `PublicOf(0)` leaves entry 0 of the group vector, the group public key, unchanged |
| `Dkg.Renewal` | index.js:52-92 | when a member's old share and old group vector are aggregated with verified zero contributions, the group public key is unchanged and the renewed share passes the Feldman check against the renewed group vector |

## Left out

- bls-lib internals: elliptic-curve and pairing arithmetic, `secretKeySetByCSPRNG`, `hashToSecretKey`, `secretKeyImport`, serialisation, `sign` and `verify`. The modular model above replaces the curve, and the random draws are a parameter.
- The value of `P` and `G`: the real group order and generator belong to bls-lib's curve. The model uses a stand-in prime and generator.
- `SecretKeyShare` on an empty coefficient vector (a threshold of 0 in `generateContribution`) is taken to be 0. What bls-lib does in that case is not part of this model.
- Lagrange recovery (`publicKeyRecover`, `signatureRecover`). It lives entirely in bls-lib and is called only from the tests and demos.
- `bls.free`, `bls.freeArray` and the clearing of the secret coefficients after use. This is native-memory management with no effect on the values computed.
- Aliasing of key objects. Keys are values here, but in the library they are handles to bls-lib objects updated in place. `addVerificationVectors` returns the first input's point objects (per index), and adds into them, so the caller's first vectors change too. `addContributionShares` returns the popped share object after adding into it, and frees the shares left in the caller's array.
- AddVerificationVectors: the library's `!pk1` test treats any falsy handle as missing. Handles are non-zero pointers, so the model tests `i < |groupsVvec|` instead.
- Orchestration scripts (example.js, test.js, test/vvecTest.js, test/index.js). Their assertions appear above as lemmas, but the scripts themselves are not modelled.
- The renewal round itself: the repository has no code that runs one. `Dkg.Renewal` states what such a round guarantees when built from `generateZeroContribution`, `addContributionShares` and `addVerificationVectors`.
