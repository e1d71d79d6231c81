# Verified model of the overlay broadcast stack

A Dafny model of the logic that a broadcast overlay on a block chain rests on: threshold custody of
signing keys, the broadcast key graph and its rekeying, the transaction codec and trust root, the
session signing discipline, and the admission rules of its service boundary. Each module models one
part of the system and proves what that part is for.

| files | part |
|---|---|
| `NumberTheory`, `Fermat`, `Paillier`, `RangeProof`, `ProofSoundness`, `ModulusProof`, `Gg20` | Paillier encryption, the two MtA proofs and what an accepted one says, the modulus proof, GG20 signing |
| `Field`, `Polynomial`, `Lagrange`, `PrimeField`, `ScalarShamir`, `Frost`, `Gf256`, `Shamir256` | interpolation over any field, scalar and byte sharing, threshold signatures |
| `KeyGraph`, `KeyHierarchy`, `KeySecrecy`, `KeyLedger`, `Rekeying`, `Broadcast`, `BroadcastBuild` | the key graph, join and leave, who can derive which key over whole histories, packaging, building |
| `Powers`, `Merkle`, `Bytes`, `Transactions`, `Scripts`, `Sighash`, `Sessions`, `Headers`, `HeaderChains` | codec, Merkle proofs, signature hash, sessions, header chain |
| `Echo`, `Lifecycle`, `Api` | the echo round, the custody log, request admission |

## Main results

- Key secrecy (`KeySecrecy.DerivesIff`, `Rekeying.PublicationLaw`): over any history of proper joins and leaves, a
  coalition pooling every leaf key its members ever held with everything ever published derives a node's key in a state exactly
  when a member sat at or below that node in that state. `join` accepts a user who is already a member and a sponsor
  that is a user's leaf. `KeyLedger.LedgerLaw` is the law when members do join again, and `SponsorCost` gives exactly
  what the other costs. `BroadcastBuild.Build` gives the starting states of such histories, and `Join` and `Leave` of
  `BroadcastGraph` their steps. Each of the three packagings suffices for every member (`Rekeying.*Suffices`).
- GG20 (`Gg20.SignIdentifiable`): the nested share conversion gives the products of the sums, no honest party is
  blamed, and the result is exactly the low-S ECDSA signature under the dealt key. Both MtA proofs and the modulus
  proof are complete for all inputs and randomness; an accepted MtA proof satisfies its equations whoever made it, and
  two answers to one commitment tie the plaintexts of unit ciphertexts to the answers (`ProofSoundness.RangeExtracts`,
  `ResponderExtracts`). Paillier decryption inverts encryption exactly for nonces coprime to n
  (`Paillier.RoundTripIffUnit`), which the code's nonce draw does not guarantee.
- Sharing: `gf_mul` makes bytes a field, any quorum reconstructs, any t-1 shares fit every candidate; scalar
  reconstruction and the threshold signature's coefficients agree on one interpolation theorem.
- Codec and chain: transactions, headers and scripts round-trip with exact conditions (`MAX_IO`, minimal CompactSize,
  payload below 2^32), parsers accept exactly the forms written down apart from them (`Scripts.ParsesIff`,
  `Bytes.VarintReadsIff`), and every field has its place in the bytes. Merkle proofs of any length are classified and
  shared roots characterised. Tip hashes, log heads, digests of every hash type and echo hashes bind what they cover,
  each by a function that returns the colliding inputs.
- Threshold signatures: a quorum's signature verifies for its own message, and for another exactly when the two
  challenge hashes agree modulo q (`Frost.SignRound`).
- Sessions: a member's signature survives any change of other outputs and covers its own (`Sessions.MemberSurvivesSwap`,
  `MemberSeesOwnSwap`); the broadcaster's covers all.
- Admission: over every history what was executed was authorised (`Api.RunAuthorised`, `ExecutedIff`), and from the times
  of the calls alone, exactly when a caller can exceed its limit in a window (`Api.OverspendIff`).

## How the system is modelled

- Hash functions, Fiat-Shamir oracles and signature schemes are function parameters. A claim that a hash binds returns
  the two colliding inputs from an explicit function instead of assuming there are none.
- Random draws are parameters. In the broadcast layer keys are names from a supply that never repeats, and a wrap is
  the pair of the key it is under and the key it carries, which opens with the first and no other.
- The curve is its prime-order group written as discrete logarithms modulo any prime q; the x-coordinate is a function
  that does not see the sign of a point.
- The iteration order of hash maps is left open by choosing elements arbitrarily.
- Public keys are 33 bytes and DER signatures at most 72, as the types and the group size make them.
- Bytes of GF(2^8) are eight booleans; bytes of the codecs are integers below 256. `usize` is 64 bits wide, and lengths of
  byte strings are at most its maximum, as they are in memory.
- MtA and GG20 results take Paillier keys as `generate` makes them, with n > q^2 and nonces coprime to n.
- Lookups whose failure the data types rule out (a missing index in a fixed list) have no error branch.

## Where documentation and code differ

The model follows the code.

- `shamir256::reconstruct` documents an error for fewer than two shares; only an empty list gives it, and two shares
  with the same index go unnoticed when the bodies are empty (`Shamir256.Reconstruct`).
- `random_nonce` documents a unit modulo n and excludes only zero (`Paillier.RoundTripIffUnit`).
- `Transaction::serialize` documents a byte-identical round trip, which holds exactly for minimal CompactSize fields
  (`Transactions.ParseThenSerialize`) and lists within `MAX_IO` (`Transactions.SerializeThenParse`).
- `push_data` accepts any length and writes zero for one that does not fit in four bytes (`Scripts.CarrierRoundTripIff`).
- `revoke` documents a second revocation event; the code refuses a second call (`Lifecycle.KeyCustodian.Revoke`).
- `run_echo_round` documents the equivocating sender; with views of different lengths it can name a sender who did not
  equivocate (`Echo.UnjustIff`).
- `remove_subtree` with `max_nodes` at the largest usize reports an error after it has changed the graph
  (`KeyGraphs.KeyGraph.RemoveSubtree`).

## Model

| member | source | states |
|---|---|---|
| `Paillier.Generate` | crates/custody/src/paillier.rs:100-125 | the key relations n = pq, n^2, lambda = lcm(p-1, q-1), mu * lambda = 1 mod n, exactly when lambda is invertible and the size bound holds |
| `Paillier.GenerateSucceeds` | crates/custody/src/paillier.rs:100-125 | two distinct odd primes less than a factor of two apart always give a key |
| `Paillier.OnePlusPow` | crates/custody/src/paillier.rs:63-68 | (1 + xn)^e = 1 + exn modulo n^2, for every x and e |
| `Paillier.NthPowerModN` | crates/custody/src/paillier.rs:63-68 | bases congruent modulo n have the same n-th power modulo n^2 |
| `Paillier.EncryptEncrypts` | crates/custody/src/paillier.rs:63-68 | a ciphertext has the form (1 + mn) r^n modulo n^2 for its own plaintext and nonce |
| `Paillier.DecryptRecovers` | crates/custody/src/paillier.rs:144-149 | whatever encrypts m under a unit nonce decrypts to m mod n |
| `Paillier.RoundTrip` | crates/custody/src/paillier.rs:63-149 | for a unit nonce, decrypting an encryption gives the plaintext back, for every plaintext below n |
| `Paillier.RoundTripIffUnit` | crates/custody/src/paillier.rs:49-68 | all plaintexts survive under a nonce exactly when the nonce is coprime to n; `random_nonce` only excludes zero |
| `Paillier.ZeroLost` | crates/custody/src/paillier.rs:49-59 | for every nonce divisible by just one of the primes, the plaintext 0 does not come back |
| `Paillier.UnderflowIff` | crates/custody/src/paillier.rs:144-149 | the subtraction in `decrypt` underflows exactly for ciphertexts divisible by n |
| `Paillier.AddDecrypts` | crates/custody/src/paillier.rs:81-83 | `add` is addition of plaintexts modulo n |
| `Paillier.MulConstDecrypts` | crates/custody/src/paillier.rs:87-89 | `mul_const` is multiplication of the plaintext modulo n |
| `RangeProofs.CommitCombines` | crates/custody/src/rangeproof.rs:79-143 | the ring-Pedersen commitment is multiplicatively homomorphic in both exponents |
| `RangeProofs.RangeComplete` | crates/custody/src/rangeproof.rs:79-143 | an attempt's proof passes `verify` exactly when its response is at most q^3, for all inputs and all randomness |
| `RangeProofs.ProveRange` | crates/custody/src/rangeproof.rs:79-114 | `prove` returns the first attempt whose response is at most q^3, and it verifies; it fails exactly when all 32 attempts overshoot q^3 |
| `RangeProofs.ResponderComplete` | crates/custody/src/rangeproof.rs:171-272 | the same for the responder proof and the response c_a^x Enc(y) |
| `RangeProofs.ProveResponder` | crates/custody/src/rangeproof.rs:171-225 | `prove_responder` returns the first attempt in range, and it verifies; it fails exactly when all 32 attempts overshoot q^3 |
| `ProofSoundness.RangeAcceptsIff` | crates/custody/src/rangeproof.rs:118-143 | in plain numbers: accepted exactly when s1 is at most q^3, u c^e encrypts s1 under s, and h1^s1 h2^s2 = w z^e modulo nTilde, with e the oracle's answer on c, z, u, w, n, nTilde modulo q |
| `ProofSoundness.RangeAnswers` | crates/custody/src/rangeproof.rs:118-143 | an accepted proof's answer s1 is Dec(u) + e Dec(c) modulo n, for any unit ciphertexts, honest or not |
| `ProofSoundness.RangeTwoAnswers` | crates/custody/src/rangeproof.rs:118-143 | two accepted proofs with one c, z, u, w and challenges e, e' relate c^(e-e') to s1 - s1' |
| `ProofSoundness.RangeExtracts` | crates/custody/src/rangeproof.rs:118-143 | two answers fix the secret: (e - e') times the plaintext of c is s1 - s1' modulo n, and where e - e' is invertible that gives the plaintext |
| `ProofSoundness.ResponderAcceptsIff` | crates/custody/src/rangeproof.rs:229-305 | in plain numbers: the three equations of `verify_responder` and the bound, with e the oracle's answer on all nine values |
| `ProofSoundness.ResponderAnswers` | crates/custody/src/rangeproof.rs:229-305 | an accepted responder proof answers linearly: s1 Dec(ca) + t1 = Dec(u) + e Dec(cb) modulo n |
| `ProofSoundness.ResponderTwoAnswers` | crates/custody/src/rangeproof.rs:229-305 | two accepted responder proofs with one commitment relate cb^(e-e') to s1 - s1' and t1 - t1' |
| `ProofSoundness.ResponderExtracts` | crates/custody/src/rangeproof.rs:229-305 | two answers tie the response to its two secrets: (e - e') Dec(cb) = (s1 - s1') Dec(ca) + (t1 - t1') modulo n |
| `ProofSoundness.DecryptHomomorphic` | crates/custody/src/paillier.rs:81-149 | c1 c2^e decrypts to Dec(c1) + e Dec(c2) modulo n, for any unit ciphertexts, however they were made |
| `ModulusProofs.Verify` | crates/custody/src/modulusproof.rs:45-58 | accepts exactly when every response is an n-th root of its challenge element and there are as many as required |
| `ModulusProofs.AcceptedIff` | crates/custody/src/modulusproof.rs:45-82 | told on the oracle: n is odd and above one, there are twelve responses, and the n-th power of response i is oracle(n, i) modulo n, or 1 where that is 0 |
| `ModulusProofs.Prove` | crates/custody/src/modulusproof.rs:29-41 | succeeds exactly when n is invertible modulo lambda, with the responses computed from that inverse |
| `ModulusProofs.RootRestores` | crates/custody/src/modulusproof.rs:29-41 | raising to the inverse of n modulo lambda and then to n gives every residue back, units or not |
| `ModulusProofs.ModulusComplete` | crates/custody/src/modulusproof.rs:29-58 | an honest key's proof always exists and is always accepted |
| `ScalarShamir.EvalScalar` | crates/custody/src/shamir.rs:84-90 | the Horner loop is evaluation of the polynomial |
| `ScalarShamir.Split` | crates/custody/src/shamir.rs:44-61 | refuses exactly the bad thresholds; share i is the polynomial at i, with the secret as constant term |
| `ScalarShamir.Reconstruct` | crates/custody/src/shamir.rs:65-82 | the double loop is the Lagrange sum of the shares |
| `ScalarShamir.ReconstructsSecret` | crates/custody/src/shamir.rs:65-82 | from any set of at least t distinct shares of one polynomial the sum is the secret |
| `ScalarShamir.PickedSharesOf` | crates/custody/src/shamir.rs:44-82 | any distinct selection of what `split` deals is such a set |
| `ScalarShamir.SplitHides` | crates/custody/src/shamir.rs:44-61 | from t-1 shares every candidate secret is possible, for exactly one other choice of the drawn coefficients |
| `ScalarShamir.RepeatedContributesNothing` | crates/custody/src/shamir.rs:65-82 | a share whose index occurs twice contributes nothing to `reconstruct` |
| `ScalarShamir.LagrangeCoefficient` | crates/custody/src/threshold.rs:200-211 | the loop computes the coefficient of one signer over the others |
| `ScalarShamir.CoefficientIsWeight` | crates/custody/src/threshold.rs:200-211 | that coefficient is the Lagrange weight at zero |
| `ScalarShamir.AdditiveSharesSum` | crates/custody/src/threshold.rs:137-151 | the weighted shares of any quorum add up to the dealt secret, agreeing with `reconstruct` |
| `Frost.ThresholdParty.constructor` | crates/custody/src/threshold.rs:92-98 | a new party holds its share and no nonce |
| `Frost.ThresholdParty.Commit` | crates/custody/src/threshold.rs:110-119 | round one stores the nonce and publishes the hash of its point |
| `Frost.ThresholdParty.Reveal` | crates/custody/src/threshold.rs:125-131 | round two reveals the committed point and fails before round one |
| `Frost.ThresholdParty.PartialSign` | crates/custody/src/threshold.rs:137-151 | round three gives nonce + challenge * coefficient * share and fails before round one |
| `Frost.CommitmentsBind` | crates/custody/src/threshold.rs:156-166 | accepted reveals are the committed points, or the commitment hash collides on the two points shown |
| `Frost.CommitmentsAcceptedIff` | crates/custody/src/threshold.rs:156-166 | accepted exactly when there are as many commitments as reveals and the first commitment with a reveal's index is the hash of its point |
| `Frost.VerifyIff` | crates/custody/src/threshold.rs:186-198 | in integers: s = r + P hash(r, P, message) modulo q, with s reduced |
| `Frost.VerifiesForOtherIff` | crates/custody/src/threshold.rs:186-198 | a signature that verifies for one message verifies for another exactly when the challenge hashes of the two agree modulo q, or the group key is zero |
| `Frost.PartialsCombine` | crates/custody/src/threshold.rs:137-182 | the partial signatures of a completed round combine nonces and weighted shares term by term |
| `Frost.AggregateVerifiesIff` | crates/custody/src/threshold.rs:178-189 | the aggregate passes `verify` exactly when the challenge is zero or the weighted shares sum to the group secret |
| `Frost.QuorumSignatureVerifies` | crates/custody/src/threshold.rs:178-189 | the aggregate of any quorum of at least t distinct shares passes `verify` |
| `Frost.HonestCommitmentsPass` | crates/custody/src/threshold.rs:156-166 | honest reveals pass against honest commitments |
| `Frost.CommitAll` | crates/custody/src/threshold.rs:110-119 | round one over all parties |
| `Frost.RevealAll` | crates/custody/src/threshold.rs:125-131 | round two over all parties |
| `Frost.SignAll` | crates/custody/src/threshold.rs:137-151 | round three over all parties |
| `Frost.SignRound` | crates/custody/src/threshold.rs:110-189 | commit, reveal, commitment verification, signing and aggregation over the party objects always complete, and for a quorum the signature passes `verify`, and for another message exactly when the challenge hashes agree modulo q |
| `Gg20.ResponseDecrypts` | crates/custody/src/gg20.rs:275-327 | with n > q^2 and unit nonces the response decrypts to ab + beta' with no wrap-around |
| `Gg20.ProofsFitIff` | crates/custody/src/gg20.rs:275-327 | in numbers, when both proofs of a conversion are found: each challenge is asked under the other party's Pedersen parameters, and in some attempt the answer to it is at most q^3 |
| `Gg20.Mta` | crates/custody/src/gg20.rs:275-327 | honest parties get shares adding to ab modulo q and nobody is blamed; it fails exactly when a prover overshoots 32 times |
| `Gg20.AllProducts` | crates/custody/src/gg20.rs:217-268 | own products plus the products of all ordered pairs make the product of the sums |
| `Gg20.PointwiseProducts` | crates/custody/src/gg20.rs:225-230 | the accumulators start at the own products |
| `Gg20.AccumulatePair` | crates/custody/src/gg20.rs:236-264 | one ordered pair adds its two cross products to delta and sigma |
| `Gg20.MtaAccumulate` | crates/custody/src/gg20.rs:217-268 | the deltas sum to (sum k)(sum gamma) and the sigmas to (sum k)(sum w) modulo q, exactly when all proofs fit |
| `Gg20.AdditiveSharesOf` | crates/custody/src/gg20.rs:182-186 | the weighted shares of the signing parties |
| `Gg20.CombineShares` | crates/custody/src/gg20.rs:203-207 | the fold of s over the parties |
| `Gg20.SignatureVerifies` | crates/custody/src/gg20.rs:191-334 | r and s = k(m + rx) pass ECDSA verification under x even after low-S negation (section 4.1.4 of SEC 1 v2.0) |
| `Gg20.EcdsaIff` | crates/custody/src/gg20.rs:191-334 | in integers: a signature verifies exactly when r and s are in range and some nonzero k solves s k = m + r P modulo q with x(k) = r (section 4.1.4 of SEC 1 v2.0) |
| `Gg20.SignatureIff` | crates/custody/src/gg20.rs:194-211 | in integers: with R the inverse of the nonce sum, the pair is x(R) and k (m + r x) in low-S form, and there is one unless gamma, r or s vanishes |
| `Gg20.HonestNeverBlamed` | crates/custody/src/gg20.rs:173-180 | a proof made from the party's own key is accepted, so an honest party is never named |
| `Gg20.FindBadModulus` | crates/custody/src/gg20.rs:173-180 | the first party whose modulus proof is refused, if any |
| `Gg20.FinishSignature` | crates/custody/src/gg20.rs:194-211 | the result is the low-S signature with nonce 1/(sum k) on the summed key, and fails exactly where a sum, r or s is zero |
| `Gg20.SignIdentifiable` | crates/custody/src/gg20.rs:164-212 | too few parties fail, the first bad modulus is named, otherwise nobody is blamed and the exact signature is returned when all proofs fit; for a quorum it verifies under the dealt key |
| `Gf256.XtimeIsShiftAndReduce` | crates/kst/src/shamir256.rs:51-55 | multiplication by x is a left shift and a conditional reduction by 0x1b |
| `Gf256.GfMul` | crates/kst/src/shamir256.rs:43-59 | the eight shift-and-reduce rounds compute the field product |
| `Gf256.TimesComm` | crates/kst/src/shamir256.rs:43-59 | the product commutes |
| `Gf256.TimesAssoc` | crates/kst/src/shamir256.rs:43-59 | the product associates |
| `Gf256.TimesXorRight` | crates/kst/src/shamir256.rs:43-59 | the product distributes over exclusive or |
| `Gf256.GfPow` | crates/kst/src/shamir256.rs:61-73 | square-and-multiply is the power |
| `Gf256.InverseLaw` | crates/kst/src/shamir256.rs:76-78 | a^254 is the inverse of every nonzero byte |
| `Gf256.GfLawful` | crates/kst/src/shamir256.rs:43-78 | bytes with these operations are a field |
| `Shamir256.PushByte` | crates/kst/src/shamir256.rs:100-112 | each share gains the value of one byte's polynomial at its own index |
| `Shamir256.Split` | crates/kst/src/shamir256.rs:89-114 | refuses exactly the bad parameters; share i holds every byte's polynomial at i |
| `Shamir256.GfInv` | crates/kst/src/shamir256.rs:76-78 | the inverse as the code computes it |
| `Shamir256.Fraction` | crates/kst/src/shamir256.rs:138-150 | numerator and denominator of one weight, refused when two indices collide |
| `Shamir256.InterpolateByte` | crates/kst/src/shamir256.rs:134-154 | the Lagrange sum at zero for distinct indices, and `BadParams` otherwise |
| `Shamir256.Reconstruct` | crates/kst/src/shamir256.rs:121-132 | each error case exactly, and otherwise the interpolated bytes |
| `Shamir256.QuorumRecoversByte` | crates/kst/src/shamir256.rs:89-154 | each byte comes back from any set of at least t distinct shares |
| `Shamir256.SplitThenReconstruct` | crates/kst/src/shamir256.rs:89-154 | for every secret, coefficients and selection of at least t distinct shares, `reconstruct` returns the secret |
| `Shamir256.EveryCandidateExplained` | crates/kst/src/shamir256.rs:80-113 | for any t-1 points, bytes there and candidate secret byte exactly one coefficient vector explains them |
| `Shamir256.SplitHides` | crates/kst/src/shamir256.rs:89-114 | from t-1 shares every candidate seed of the same length is possible, for exactly one choice of the drawn coefficients of each byte |
| `Shamir256.FromNatValue` | crates/kst/src/shamir256.rs:106-110 | the index byte of share i has the bits of i |
| `KeyGraphs.PathLength` | crates/keygraph/src/graph.rs:187-204 | the path to the root has layer + 1 nodes, and the position has one coordinate per layer |
| `KeyGraphs.AddedTree` | crates/keygraph/src/graph.rs:102-131 | adding a child keeps the tree: parent edges, layers, positions and exact duplicate-free child lists |
| `KeyGraphs.AddedPaths` | crates/keygraph/src/graph.rs:102-131 | adding a child keeps all paths, and the new path is one step longer |
| `KeyGraphs.PrunedTree` | crates/keygraph/src/graph.rs:150-181 | removing a subtree keeps the tree |
| `KeyGraphs.PrunedPath` | crates/keygraph/src/graph.rs:150-181 | removing a subtree keeps the paths of what stays |
| `KeyGraphs.TreePassesChecks` | crates/keygraph/src/graph.rs:235-258 | every tree passes the structural verification |
| `KeyGraphs.KeyGraph.constructor` | crates/keygraph/src/graph.rs:41-60 | a single root within any bounds |
| `KeyGraphs.KeyGraph.AddChild` | crates/keygraph/src/graph.rs:102-131 | succeeds exactly within the bounds, with the new node listed under its parent; otherwise nothing changes |
| `KeyGraphs.KeyGraph.RemoveSubtree` | crates/keygraph/src/graph.rs:150-181 | exactly the node and its descendants go; with `max_nodes` at the largest usize it fails and leaves the child lists broken |
| `KeyGraphs.KeyGraph.Sweep` | crates/keygraph/src/graph.rs:163-180 | the stack loop removes the subtree and its cycle guard never fires |
| `KeyGraphs.KeyGraph.LeafToRoot` | crates/keygraph/src/graph.rs:187-204 | the unique path; the cycle guard never fires |
| `KeyGraphs.KeyGraph.VerifyInvariants` | crates/keygraph/src/graph.rs:235-258 | accepts exactly when the root is there without a parent and every other node's parent is there and lists it |
| `KeyHierarchy.RotatedKeys` | crates/broadcast/src/graph.rs:268-287 | rotation gives each listed node its own fresh key and leaves the others alone |
| `KeyHierarchy.JoinSound` | crates/broadcast/src/graph.rs:201-216 | a join keeps the tree and a distinct key for every node |
| `KeyHierarchy.LeaveSound` | crates/broadcast/src/graph.rs:186-193 | a leave keeps the tree and a distinct key for every node |
| `KeyHierarchy.JoinInherits` | crates/broadcast/src/graph.rs:201-216 | after a join of a new user, a key that is not fresh has the users beneath its node that it had before |
| `KeyHierarchy.LeaveInherits` | crates/broadcast/src/graph.rs:186-193 | the same after a leave |
| `KeyHierarchy.JoinDisciplined` | crates/broadcast/src/graph.rs:201-216 | users keep distinct childless leaves as long as the sponsor is not a user's leaf |
| `KeyHierarchy.LeaveDisciplined` | crates/broadcast/src/graph.rs:186-193 | a leave removes the user's leaf and no other node |
| `KeySecrecy.RunIsGood` | crates/broadcast/src/graph.rs:186-216 | every state reached by joins and leaves from a good state is good |
| `KeySecrecy.DerivesLeast` | crates/broadcast/src/graph.rs:144-157 | the derivable keys are the least set holding the held keys and closed under unwrapping |
| `KeySecrecy.KeyPinsAudience` | crates/broadcast/src/graph.rs:268-287 | wherever in a run a key is current, the same users are beneath its node |
| `KeySecrecy.DerivesOnlyAudience` | crates/broadcast/src/graph.rs:186-338 | nothing published ever lets a coalition derive a key that had no member beneath it |
| `KeySecrecy.DerivesIff` | crates/broadcast/src/graph.rs:102-338 | over any run, everything ever held and published yields exactly the keys of nodes with a coalition member beneath them in that state |
| `KeySecrecy.LockedOut` | crates/broadcast/src/graph.rs:186-216 | users who are not members in a state, departed or not yet joined, derive none of its keys, from anything before or after |
| `KeySecrecy.MembersRead` | crates/broadcast/src/graph.rs:138-159 | every member derives the message key of every state it is a member of |
| `KeySecrecy.SponsorCutOff` | crates/broadcast/src/graph.rs:201-216 | a join changes another user's leaf key exactly when that leaf is the sponsor; `join` does not refuse it |
| `KeySecrecy.SponsorCost` | crates/broadcast/src/graph.rs:201-216 | from its old path keys and everything published before and after the join, another user derives the new message key exactly when its leaf was not the sponsor |
| `KeySecrecy.RejoinIff` | crates/broadcast/src/graph.rs:186-216 | after join and leave a user still derives the message key exactly when it was a member before the join; `join` does not refuse it |
| `KeySecrecy.JoinKeepsKey` | crates/broadcast/src/graph.rs:201-216 | a join changes exactly the keys on the sponsor's path |
| `KeySecrecy.JoinKeepsUp` | crates/broadcast/src/graph.rs:201-287 | after a join every other member gets all its path keys from its old ones and the rekey messages alone |
| `KeySecrecy.JoinerStarts` | crates/broadcast/src/graph.rs:201-287 | the joiner gets all its path keys from its leaf key and the rekey messages alone |
| `KeySecrecy.LeaveKeepsUp` | crates/broadcast/src/graph.rs:186-287 | after a leave every remaining member gets all its path keys from its old ones and the rekey messages alone |
| `KeySecrecy.KeepsUp` | crates/broadcast/src/graph.rs:186-287 | after any proper join or leave each member gets all its current path keys from what it brings and the rekey messages alone |
| `KeySecrecy.LeafKeyKept` | crates/broadcast/src/graph.rs:186-287 | the leaf key a member brings is still its leaf key afterwards |
| `KeyLedger.StartLedger` | crates/broadcast/src/graph.rs:44-73 | every good state starts a history with its current members' leaves on record |
| `KeyLedger.NamedRun` | crates/broadcast/src/graph.rs:186-216 | a history in which members may join again is a run once each leaf ever given counts as a user of its own |
| `KeyLedger.OwnerFixed` | crates/broadcast/src/graph.rs:186-216 | a leaf belongs to the same user as long as it is in the tree |
| `KeyLedger.LedgerLaw` | crates/broadcast/src/graph.rs:102-338 | with members joining again allowed, a coalition derives a node's key in a state exactly when a leaf any of its members was ever given is still in the tree at or below that node |
| `Rekeying.ClimbDerives` | crates/broadcast/src/graph.rs:144-157 | whatever items are given, unwrapping up a path is a derivation from the starting key |
| `Rekeying.ClimbCurrent` | crates/broadcast/src/graph.rs:144-157 | with the current items only the node's current key climbs, and it reaches the root key |
| `Rekeying.ItemsAreOut` | crates/broadcast/src/graph.rs:102-116 | the data items carry every parent key under every child key |
| `Rekeying.ItemsAreUpward` | crates/broadcast/src/graph.rs:102-116 | a data item only ever carries a key up the tree |
| `Rekeying.RekeyedStep` | crates/broadcast/src/graph.rs:268-287 | going up the path keeps earlier rekey messages right |
| `Rekeying.RekeyedIsOut` | crates/broadcast/src/graph.rs:268-287 | the rekey messages carry each replaced key under each child's current key |
| `Rekeying.RekeyedIsUpward` | crates/broadcast/src/graph.rs:268-287 | a rekey message only ever carries a key up the tree |
| `Rekeying.KeysUnderWraps` | crates/broadcast/src/graph.rs:300-315 | grouping adds no wrap that is not a rekey message's |
| `Rekeying.KeysUnderOne` | crates/broadcast/src/graph.rs:300-315 | with one message per encrypting node a group is that message |
| `Rekeying.KeyOrientedInforms` | crates/broadcast/src/graph.rs:289-298 | key-oriented communiques inform exactly the children of replaced nodes, each once: the parent's new key, labelled with the parent, under the child's key |
| `Rekeying.GroupingChangesNothing` | crates/broadcast/src/graph.rs:289-315 | after a join or leave, group-oriented and key-oriented packaging are the same multiset of communiques |
| `Rekeying.UserKeysContent` | crates/broadcast/src/graph.rs:317-338 | a user's communique holds exactly the replaced nodes on its path |
| `Rekeying.UserShareOpens` | crates/broadcast/src/graph.rs:238-247 | it opens with the leaf key and no other, and gives exactly the current keys of those nodes |
| `Rekeying.UserShareUpward` | crates/broadcast/src/graph.rs:317-338 | it only carries keys up the tree |
| `Rekeying.KeyOrientedSuffices` | crates/broadcast/src/graph.rs:289-298 | after any proper join or leave each member gets its current path keys from what it brings and the key-oriented communiques alone |
| `Rekeying.GroupOrientedSuffices` | crates/broadcast/src/graph.rs:300-315 | the same from the group-oriented communiques alone |
| `Rekeying.UserOrientedSuffices` | crates/broadcast/src/graph.rs:238-338 | each affected member has a user-oriented communique that the leaf key it brings opens, with exactly the current keys of the replaced nodes on its path |
| `Rekeying.PublicationLaw` | crates/broadcast/src/graph.rs:102-338 | the audience law for any mixture of data items, rekey messages and communiques that includes every state's items |
| `Broadcasts.BroadcastGraph.ChildrenOf` | crates/broadcast/src/graph.rs:260-266 | exactly the node's children, once each, in some order |
| `Broadcasts.BroadcastGraph.WrapFor` | crates/broadcast/src/graph.rs:272-280 | a node's new key under each listed child's key |
| `Broadcasts.BroadcastGraph.RekeyNode` | crates/broadcast/src/graph.rs:270-282 | one fresh key, with its messages added and the earlier ones still right |
| `Broadcasts.BroadcastGraph.RotateAndRekey` | crates/broadcast/src/graph.rs:268-287 | fresh keys bottom-up, and exactly one message per edge into a replaced node, under the child's final key |
| `Broadcasts.BroadcastGraph.AncestorsOf` | crates/broadcast/src/graph.rs:249-252 | the path without the leaf, or the graph error |
| `Broadcasts.BroadcastGraph.Leave` | crates/broadcast/src/graph.rs:186-193 | exactly when it succeeds, each error, and the whole new state; errors change nothing |
| `Broadcasts.BroadcastGraph.Join` | crates/broadcast/src/graph.rs:201-216 | exactly when it succeeds, each error, the whole new state and the returned leaf key; errors change nothing |
| `Broadcasts.BroadcastGraph.AdmitLeaf` | crates/broadcast/src/graph.rs:209-215 | keying the new leaf and rotating the sponsor's path |
| `Broadcasts.BroadcastGraph.EncryptedDataItems` | crates/broadcast/src/graph.rs:102-116 | one item for each non-root node, carrying its parent's key under its own |
| `Broadcasts.BroadcastGraph.EncryptMessage` | crates/broadcast/src/graph.rs:123-130 | sealed once, under the root key |
| `Broadcasts.BroadcastGraph.UserDecrypt` | crates/broadcast/src/graph.rs:138-159 | the result for any key, items and message; with the current items it succeeds exactly for a user's current leaf key |
| `Broadcasts.BroadcastGraph.GroupOriented` | crates/broadcast/src/graph.rs:300-315 | one communique per encrypting node with all its keys in message order |
| `Broadcasts.BroadcastGraph.ListGroups` | crates/broadcast/src/graph.rs:308-314 | each group listed once |
| `Broadcasts.BroadcastGraph.ShareOf` | crates/broadcast/src/graph.rs:323-329 | the replaced nodes of a path under a leaf key |
| `Broadcasts.BroadcastGraph.UserCommunique` | crates/broadcast/src/graph.rs:321-330 | one user's share, or the graph error |
| `Broadcasts.BroadcastGraph.UserOriented` | crates/broadcast/src/graph.rs:317-338 | one communique per affected user with its whole share; fails exactly when some user's leaf is gone |
| `Broadcasts.BroadcastGraph.OpenUserCommunique` | crates/broadcast/src/graph.rs:238-247 | all wraps opened, or a cipher error |
| `BroadcastBuild.BuildBinary` | crates/broadcast/src/graph.rs:341-354 | a full binary tree whose leaves are the n listed nodes |
| `BroadcastBuild.FillLayer` | crates/broadcast/src/graph.rs:344-352 | one layer gets two children per node |
| `BroadcastBuild.AddTwins` | crates/broadcast/src/graph.rs:347-349 | both children are added within the bounds |
| `BroadcastBuild.DrawKeys` | crates/broadcast/src/graph.rs:57-62 | a distinct key for every node |
| `BroadcastBuild.SeatUsers` | crates/broadcast/src/graph.rs:63-67 | each user sits at the leaf of its last position in the list |
| `BroadcastBuild.PowerOfTwoIff` | crates/broadcast/src/graph.rs:46-48 | `is_power_of_two` holds exactly for the powers of two |
| `BroadcastBuild.BuiltGood` | crates/broadcast/src/graph.rs:44-73 | a graph so built is a good starting state, also with repeated user ids |
| `BroadcastBuild.Build` | crates/broadcast/src/graph.rs:44-73 | succeeds exactly for a power of two that quadruples within usize, and gives a good state over a full binary tree |
| `Merkle.NextLevel` | crates/bsv/src/merkle.rs:91-101 | each level pairs neighbours, the odd last node with itself |
| `Merkle.MerkleRoot` | crates/bsv/src/merkle.rs:23-37 | the reference root; the height guard fires exactly above 2^64 leaves |
| `Merkle.HeightGuard` | crates/bsv/src/merkle.rs:8-36 | height at most 64 exactly up to 2^64 leaves |
| `Merkle.ComputeRootFromProof` | crates/bsv/src/merkle.rs:52-67 | the loop is the fold of the siblings, refused above 64 |
| `Merkle.PathFolds` | crates/bsv/src/merkle.rs:23-67 | the true sibling path of every leaf recomputes the root |
| `Merkle.ProofSound` | crates/bsv/src/merkle.rs:52-89 | a full-height proof that reaches the root is for the leaf its index stands for, or exhibits a collision |
| `Merkle.InnerNodeAccepted` | crates/bsv/src/merkle.rs:52-67 | every node j levels up has an accepted proof j shorter, so proof length must be fixed by the caller |
| `Merkle.ShortProofSound` | crates/bsv/src/merkle.rs:52-67 | a proof of at most full height is for a node of the level its length names, or exhibits a collision |
| `Merkle.LongProofSound` | crates/bsv/src/merkle.rs:52-67 | a proof longer than the tree folds its excess siblings into a true leaf, or exhibits a collision |
| `Merkle.LongProofAccepted` | crates/bsv/src/merkle.rs:52-67 | and every way of hashing up into a leaf is accepted, so length must be fixed by the caller on this side too |
| `Merkle.RootBinds` | crates/bsv/src/merkle.rs:23-37 | equally long leaf lists with the same root are equal, or exhibit a collision |
| `Merkle.SharedRootIff` | crates/bsv/src/merkle.rs:23-101 | two lists of any lengths share a root if the lower tree's leaves, filled up by self-pairing, are the other tree's filled-up level at that height; if they share a root otherwise, any differing position exhibits a collision |
| `Merkle.SharedRootExactly` | crates/bsv/src/merkle.rs:23-101 | for a hash without collisions that condition is necessary and sufficient |
| `Merkle.AlikeSameRoot` | crates/bsv/src/merkle.rs:23-101 | levels of one height that are alike once filled up have the same root |
| `Merkle.UnlikeCollides` | crates/bsv/src/merkle.rs:23-101 | a position where two levels with the same root differ leads up to a collision |
| `Merkle.OddRepeatKeepsRoot` | crates/bsv/src/merkle.rs:91-101 | the simplest case of lists that share a root: an odd list and the same list with its last leaf repeated |
| `Bytes.Cursor.constructor` | crates/bsv/src/bytes.rs:16-18 | a cursor at the start |
| `Bytes.Cursor.TakeBytes` | crates/bsv/src/bytes.rs:36-41 | the next n bytes, or the exact error and no movement |
| `Bytes.Cursor.Uint` | crates/bsv/src/bytes.rs:55-123 | a little-endian integer of any width |
| `Bytes.Cursor.SumLE` | crates/bsv/src/bytes.rs:110-123 | the sum of shifted bytes is the integer |
| `Bytes.Cursor.Varint` | crates/bsv/src/bytes.rs:91-98 | the CompactSize value |
| `Bytes.Cursor.VarintBytes` | crates/bsv/src/bytes.rs:104-108 | the length-prefixed run |
| `Bytes.VarintRoundTrip` | crates/bsv/src/bytes.rs:91-140 | a written CompactSize is read back, and was minimal |
| `Bytes.VarintShrinks` | crates/bsv/src/bytes.rs:91-140 | rewriting a CompactSize never lengthens it and gives it back exactly when it was minimal |
| `Bytes.VarintReadsIff` | crates/bsv/src/bytes.rs:91-98 | the reader takes every form of every value, the shortest or not, nothing else, and stops right behind it |
| `Bytes.VarintBytesAre` | crates/bsv/src/bytes.rs:127-140 | a written CompactSize byte by byte: 1, 3, 5 or 9 bytes, the marker, then the digits in base 256 |
| `Bytes.LEDigit` | crates/bsv/src/bytes.rs:110-140 | byte k of a little-endian integer is its digit k in base 256 |
| `Bytes.RunRoundTrip` | crates/bsv/src/bytes.rs:104-140 | a written length-prefixed run is read back |
| `Transactions.ParseInput` | crates/bsv/src/transaction.rs:123-133 | reads one input or the first error |
| `Transactions.ParseOutput` | crates/bsv/src/transaction.rs:135-142 | reads one output or the first error |
| `Transactions.ParseInputs` | crates/bsv/src/transaction.rs:104-121 | reads a counted list, refused above `MAX_IO` |
| `Transactions.ParseOutputs` | crates/bsv/src/transaction.rs:104-121 | reads a counted list, refused above `MAX_IO` |
| `Transactions.Parse` | crates/bsv/src/transaction.rs:59-74 | the whole parse, trailing bytes refused |
| `Transactions.Serialize` | crates/bsv/src/transaction.rs:80-93 | the byte form |
| `Transactions.InputsReadBack` | crates/bsv/src/transaction.rs:123-151 | inputs are read back where written, and rewritten no longer, identically exactly when minimal |
| `Transactions.OutputsReadBack` | crates/bsv/src/transaction.rs:135-158 | the same for outputs |
| `Transactions.SerializeThenParse` | crates/bsv/src/transaction.rs:59-93 | parsing what was serialised gives the transaction back exactly when both lists are within `MAX_IO` |
| `Transactions.ParseThenSerialize` | crates/bsv/src/transaction.rs:59-93 | re-serialising an accepted input never lengthens it and reproduces it exactly when every CompactSize was minimal |
| `Transactions.SerializeInjective` | crates/bsv/src/transaction.rs:80-101 | equal bytes mean equal transactions |
| `Transactions.InputAt` | crates/bsv/src/transaction.rs:144-151 | where each field of an input stands: txid at 0, output index at 32, script length at 36, then the script and four bytes of sequence |
| `Transactions.OutputAt` | crates/bsv/src/transaction.rs:153-158 | where each field of an output stands: eight bytes of value, the script length and the script |
| `Transactions.ItemAt` | crates/bsv/src/transaction.rs:80-93 | item i of a list stands right behind the items before it |
| `Transactions.TransactionAt` | crates/bsv/src/transaction.rs:80-93 | where each part of a transaction stands: version, input count, inputs, output count, outputs, locktime |
| `Scripts.ParsePush` | crates/bsv/src/script.rs:110-124 | a push with a length prefix |
| `Scripts.ParseOp` | crates/bsv/src/script.rs:95-105 | one op or the exact error |
| `Scripts.ParseScript` | crates/bsv/src/script.rs:88-108 | all ops, refused above `MAX_SCRIPT_OPS` |
| `Scripts.OpReadsIff` | crates/bsv/src/script.rs:95-124 | an op is read exactly where one of its forms stands: an opcode that is no push, or a push of 1 to 75 bytes or with a length of 1, 2 or 4 bytes, the shortest or not |
| `Scripts.ParsesIff` | crates/bsv/src/script.rs:88-124 | a script parses into some ops exactly when it is their forms, one after the other, and they are at most ten million |
| `Scripts.PushReads` | crates/bsv/src/script.rs:46-61 | a minimally encoded push is read back; an empty one as OP_FALSE |
| `Scripts.AssembleThenParse` | crates/bsv/src/script.rs:46-108 | any assembled script reads back op by op, unless there are too many ops |
| `Scripts.P2pkhParses` | crates/bsv/src/script.rs:65-71 | the pay-to-public-key-hash script reads as its five ops |
| `Scripts.MultisigParses` | crates/bsv/src/script.rs:75-82 | the 1-of-2 script reads as its five ops |
| `Scripts.PushBytes` | crates/bsv/src/script.rs:46-61 | a push byte by byte: the length alone up to 75, then 0x4c, 0x4d or 0x4e before 1, 2 or 4 length bytes |
| `Scripts.P2pkhBytes` | crates/bsv/src/script.rs:65-71 | the pay-to-public-key-hash script byte by byte |
| `Scripts.MultisigBytes` | crates/bsv/src/script.rs:75-82 | the 1-of-2 script byte by byte |
| `Scripts.DataCarrier` | crates/bsv/src/datacarrier.rs:8-15 | a zero-value output whose script is 0x00 0x6a and the push of the payload |
| `Scripts.CarrierOverflows` | crates/bsv/src/datacarrier.rs:8-31 | a payload of 2^32 bytes or more is never read back: its length is written as zero |
| `Scripts.CarrierRoundTripIff` | crates/bsv/src/datacarrier.rs:8-31 | a payload survives the data carrier exactly when it is shorter than 2^32 bytes |
| `Scripts.CarriesIff` | crates/bsv/src/datacarrier.rs:21-31 | a script carries a payload exactly when it is 0x00 0x6a and one push of it in any form; nothing or 0x00 there carries the empty payload |
| `Sighash.Prevouts` | crates/bsv/src/sighash.rs:72-79 | all outpoints in order |
| `Sighash.Sequences` | crates/bsv/src/sighash.rs:81-87 | all sequence numbers in order |
| `Sighash.HashOutputs` | crates/bsv/src/sighash.rs:89-107 | the outputs a type covers, or the SINGLE index error |
| `Sighash.ComputeSighash` | crates/bsv/src/sighash.rs:27-70 | the digest of the pre-image; exactly when the input is missing, and exactly when a SINGLE type has no output of its index, that error |
| `Sighash.DigestLocal` | crates/bsv/src/sighash.rs:27-107 | a digest depends only on what its type covers: no unlocking script, and under SINGLE no other output or sequence |
| `Sighash.PreimageFields` | crates/bsv/src/sighash.rs:54-69 | equal pre-images have equal fields |
| `Sighash.DigestBinds` | crates/bsv/src/sighash.rs:27-107 | for every hash type: equal digests mean equal version, locktime, own outpoint, own sequence, script code, value and type, and equality of every other outpoint, sequence and output the type covers (under SINGLE the output of the own index), or exhibit a collision |
| `Sighash.PreimageAt` | crates/bsv/src/sighash.rs:54-69 | where each field of the pre-image stands, with each of the three hashes written out for every type |
| `Sighash.ListsAt` | crates/bsv/src/sighash.rs:72-87 | what is hashed for outpoints and for sequences: 36 and 4 bytes for each input, in order |
| `Sessions.BuildSession` | crates/session/src/builder.rs:76-107 | fails exactly without members; members, broadcaster and payload laid out in order, every script byte by byte |
| `Sessions.SessionTx.constructor` | crates/session/src/builder.rs:98-106 | the built transaction and its member count |
| `Sessions.SessionTx.SignInput` | crates/session/src/builder.rs:113-211 | one unlocking script is overwritten, or the call fails and changes nothing |
| `Sessions.SignTouches` | crates/session/src/builder.rs:113-211 | signing changes the unlocking script of its own input and nothing else |
| `Sessions.UnlockingIgnored` | crates/session/src/builder.rs:177-211 | no digest looks at any unlocking script |
| `Sessions.UnlockingReads` | crates/session/src/builder.rs:195-230 | the unlocking script reads back as signature with flag and public key |
| `Sessions.SignThenVerify` | crates/session/src/builder.rs:113-230 | an honest signature just made verifies |
| `Sessions.VerifiesIff` | crates/session/src/builder.rs:152-230 | true exactly when the input is there and its unlocking script reads as sig + [flag] and key with the signature verifying for the digest under that key |
| `Sessions.OtherSigning` | crates/session/src/builder.rs:195-230 | signing another input does not change whether this one verifies |
| `Sessions.EveryOrderVerifies` | crates/session/src/builder.rs:113-230 | in any signing order each input's last honest signature verifies at the end |
| `Sessions.MemberIgnoresOthers` | crates/session/src/builder.rs:152-185 | replacing another output changes neither a member's digest nor its verification |
| `Sessions.BroadcasterFixesOutputs` | crates/session/src/builder.rs:129-175 | replacing any output changes the broadcaster's digest, or the hash collides |
| `Sessions.CoveredOutputMoves` | crates/session/src/builder.rs:129-185 | replacing an output its flag covers, the own one under 0x43 and any under 0x41, changes a signer's digest, or the hash collides on inputs shown |
| `Sessions.MemberFixesOwnOutput` | crates/session/src/builder.rs:113-185 | replacing a member's own output changes that member's digest, or the hash collides |
| `Sessions.SigningNeverMisses` | crates/session/src/builder.rs:76-146 | every call of a built session finds its input and output; only the signer can fail |
| `Sessions.MemberSurvivesSwap` | crates/session/src/builder.rs:113-230 | in a signed session another payload leaves members' signatures valid |
| `Sessions.BroadcasterSeesSwap` | crates/session/src/builder.rs:129-175 | and moves the broadcaster's digest, or the hash collides |
| `Sessions.MemberSeesOwnSwap` | crates/session/src/builder.rs:113-185 | in a signed session another output in a member's place moves that member's digest, or the hash collides |
| `Headers.HeaderRoundTrip` | crates/bsv/src/header.rs:30-58 | parsing a serialised header gives it back |
| `Headers.RawRoundTrip` | crates/bsv/src/header.rs:30-58 | serialising any parsed 80 bytes gives them back |
| `Headers.WriteAt` | crates/bsv/src/header.rs:92-98 | the bytes at an offset and no others; past the end of the buffer nothing |
| `Headers.SerializeHeader` | crates/bsv/src/header.rs:49-58 | the buffer filled in place is the header's 80 bytes |
| `Headers.LexIsNumeric` | crates/bsv/src/header.rs:68-73 | comparing big-endian arrays is comparing numbers |
| `Headers.TargetBytesValue` | crates/bsv/src/header.rs:101-125 | the bytes placed are floor(mantissa * 256^(exponent-3)) modulo 256^n, for every exponent |
| `Headers.BitsTakenApart` | crates/bsv/src/header.rs:101-104 | the exponent is the top byte of the bits and the mantissa the low 23, the sign bit between them ignored |
| `Headers.TargetFromBits` | crates/bsv/src/header.rs:101-125 | for every exponent byte e, sign bit and mantissa m, the buffer is floor(m * 256^(e-3)) modulo 256^32, big-endian |
| `Headers.CheckTarget` | crates/bsv/src/header.rs:68-73 | accepts exactly hashes that, read as little-endian integers, are at most floor(m * 256^(e-3)) modulo 256^32, for the exponent and mantissa the bits are made of |
| `HeaderChains.HeaderChain.constructor` | crates/bsv/src/headerchain.rs:21-27 | an empty chain at a start height |
| `HeaderChains.HeaderChain.Add` | crates/bsv/src/headerchain.rs:34-47 | each error exactly; succeeds exactly when the longer chain is linked with proof of work and the height fits; a valid chain stays linked, with proof of work and an exact root index |
| `HeaderChains.HeaderChain.AddAtHeight` | crates/bsv/src/headerchain.rs:53-58 | only at the expected height |
| `HeaderChains.HeaderChain.ContainsMerkleRoot` | crates/bsv/src/headerchain.rs:78-80 | the greatest height that commits to the root, as a linear scan would find |
| `HeaderChains.HeaderChain.TipHeight` | crates/bsv/src/headerchain.rs:62-66 | the greatest height there is a header for |
| `HeaderChains.IndexedStep` | crates/bsv/src/headerchain.rs:43-45 | inserting a root at the new height keeps the index exact |
| `HeaderChains.TipFixesChain` | crates/bsv/src/headerchain.rs:34-47 | chains with the same tip hash agree as far back as the shorter goes, or exhibit a collision |
| `HeaderChains.VerifyAgainstChain` | crates/bsv/src/merkle.rs:74-89 | accepts exactly when the proof folds to the root at that height |
| `HeaderChains.SmallRoots` | crates/bsv/src/merkle.rs:12-37 | the roots of two and of three leaves written out with the hash itself: hash(a + b), and hash(hash(a + b) + hash(c + c)) |
| `HeaderChains.AcceptedIsIncluded` | crates/bsv/src/merkle.rs:74-89 | a full-height proof against the block's root is for the transaction at its index, or exhibits a hash collision |
| `Echo.TranscriptInjective` | crates/custody/src/echo.rs:33-41 | the length-prefixed transcript determines the messages |
| `Echo.TranscriptAt` | crates/custody/src/echo.rs:33-41 | each message stands behind eight bytes of its sender's number and eight of its length, and nothing else is hashed |
| `Echo.BE8Digit` | crates/custody/src/echo.rs:33-41 | the most significant byte of those integers comes first |
| `Echo.TranscriptHash` | crates/custody/src/echo.rs:33-41 | the hash of the transcript |
| `Echo.FindDifference` | crates/custody/src/echo.rs:64-73 | whether two receivers hold different messages from a sender |
| `Echo.RunEchoRound` | crates/custody/src/echo.rs:46-77 | consistent exactly when all hashes agree; otherwise the least differing sender, or the last one if none differs |
| `Echo.AgreementIsEquality` | crates/custody/src/echo.rs:46-57 | agreement means equal views, or the hash collides |
| `Echo.BlameIsJust` | crates/custody/src/echo.rs:58-77 | with equally long views the named sender is the least who equivocated |
| `Echo.DiffersIffNotNested` | crates/custody/src/echo.rs:63-74 | some sender told two receivers different things exactly when some two views are not one the beginning of the other |
| `Echo.UnjustIff` | crates/custody/src/echo.rs:58-77 | for any views, a sender is blamed unjustly exactly when the hashes disagree and the views are nested; it is then the last sender of the longest view and nobody equivocated |
| `Echo.RaggedBlame` | crates/custody/src/echo.rs:75-76 | nested views of different lengths always come to that, or the hash collides on two of them |
| `Lifecycle.EventInjective` | crates/custody/src/lifecycle.rs:45-57 | the hashed buffer determines the event's fields |
| `Lifecycle.FieldsAt` | crates/custody/src/lifecycle.rs:21-57 | where each field stands in the 74 hashed bytes: tag, key at 1, big-endian time at 34, previous hash at 42 |
| `Lifecycle.VerifyLifecycle` | crates/custody/src/lifecycle.rs:176-220 | accepts exactly the chained logs whose times do not decrease |
| `Lifecycle.HeadBinds` | crates/custody/src/lifecycle.rs:176-220 | two accepted logs with the same head are the same log, length included, or exhibit a collision |
| `Lifecycle.HistoryVerifiesIff` | crates/custody/src/lifecycle.rs:70-220 | a custodian's log is always chained, and accepted exactly when the calls carried out had non-decreasing times |
| `Lifecycle.HistoryVerifies` | crates/custody/src/lifecycle.rs:70-220 | every life with non-decreasing times gives an accepted log |
| `Lifecycle.MadeIff` | crates/custody/src/lifecycle.rs:70-220 | the logs custodians make are exactly the chained ones whose final revocation, if any, names the key in use; the check does not look at that key |
| `Lifecycle.KeyCustodian.constructor` | crates/custody/src/lifecycle.rs:70-85 | a log with its genesis event |
| `Lifecycle.KeyCustodian.Rotate` | crates/custody/src/lifecycle.rs:118-142 | one rotation event, or a refusal that changes nothing; key and flag follow the last event |
| `Lifecycle.KeyCustodian.Revoke` | crates/custody/src/lifecycle.rs:149-169 | one revocation event, or a refusal that changes nothing |
| `Api.RunSafe` | crates/api/src/service.rs:54-101 | over every history no (caller, nonce) executes two authenticated operations, and the audit log is the executions, one for one in order; unauthenticated probes may repeat a nonce |
| `Api.ExecutedIff` | crates/api/src/service.rs:54-101 | a request is executed exactly when it is small enough and, if it must be signed, the caller is registered, the signature verifies under the registered key, it has not expired, its nonce is new and the caller has budget left |
| `Api.Admitted` | crates/api/src/service.rs:82-101 | an admitted request uses up its nonce, is executed and is counted in the window of its time |
| `Api.RefusalIff` | crates/api/src/service.rs:82-101 | each refusal exactly, and what it leaves behind: only a registered, signed request in time uses up a nonce or touches the limiter |
| `Api.RunAuthorised` | crates/api/src/service.rs:54-101 | over every history each executed request that must be signed has a registered caller, verifies under the registered key and was executed no later than its expiry |
| `Api.WindowSpan` | crates/api/src/ratelimit.rs:26-29 | windows are `window_secs` long, one second when that is zero, and follow each other from time zero |
| `Api.RunBudget` | crates/api/src/ratelimit.rs:26-40 | as long as window numbers do not decrease, no caller executes more than its limit in any window |
| `Api.OverspendIff` | crates/api/src/ratelimit.rs:26-40 | told from the times of the calls alone: some history overspends a window exactly when the window is left and entered again and more calls fall in it than the limit |
| `Api.DetourOverspends` | crates/api/src/ratelimit.rs:26-40 | such a history, built for every caller that can sign, every limit and every such list of times |
| `Api.RunSteady` | crates/api/src/ratelimit.rs:26-40 | a window that is not entered again is never overspent, and until it is left the limiter's entry is what was spent |
| `Api.HandleBudget` | crates/api/src/ratelimit.rs:26-40 | one request keeps the limiter's entry equal to what the caller spent in its window |
| `Api.ApiService.CheckAndRecord` | crates/api/src/auth.rs:53-55 | whether the nonce is new, and it is recorded |
| `Api.ApiService.Allow` | crates/api/src/ratelimit.rs:26-40 | whether the rolled-over entry has budget left, and the new entry |
| `Api.ApiService.Admit` | crates/api/src/service.rs:82-101 | each refusal in order and what it leaves behind |
| `Api.ApiService.HandleRequest` | crates/api/src/service.rs:54-80 | the whole new state; data comes back exactly when the request was executed in time, the backend succeeded and any root it names is in the header chain; otherwise the exact error |

## Left out

- The DER encoding of signatures and the conversion of scalars to bytes: library calls.
- That a prover who knows no plaintext cannot find an accepted proof, zero knowledge of the range, responder and modulus proofs, and secrecy of Paillier: probabilistic claims about hardness assumptions; what an accepted proof and two answers to one commitment say is proved.
- Zero-knowledge parameters of the ring-Pedersen setup (`RingPedersen::generate`): only the commitment algebra is used.
- The retry loops that draw nonzero or coprime random numbers: draws are parameters.
- The concrete ciphers, key wrapping and key derivation (`cipher`, `ckd`): a wrap is modelled by the keys it relates.
- `KeyGraph::replace_root`, `layers`, `depth` and `position`: a counter and plain accessors.
- `txid`, `to_display_hex` and the other accessors of `bsv`: one-line compositions.
- `cmp`, `res`, `obs`, `overlay`, `node`, `server`, `cli`, `kst::store`, `session::subscription`, `session::channel`, `custody::type7`, `custody::reconstruction`: small state or library calls that would only add easy members.
- `Request::signing_prehash` and the `cmp` audit record: the signature check is a parameter, and nothing is claimed of how their buffers decode.
- Whose key signed: `verify_unlock` uses the key carried in the unlocking script, so a true answer of `verify_member` does not name the member (`Sessions.VerifiesIff` says what it does mean).
- Configuration validation of `ApiService::new`, and the clock that measures a backend call: the elapsed time is a parameter.
- ModulusProofs.Prove: for lambda above one, as every key's is; below that the result depends on the big-integer library.
- ModulusProofs.ModulusComplete: for odd primes, as every prime of at least 384 bits is.
- KeySecrecy.DerivesIff: keys are symbolic names, so guessing a key or breaking the cipher is outside the model.
