# Verified model of the key-refresh core

This project models the cryptographic and distributed core of an asynchronous distributed key refresh
system and proves what that core is for. It is written in Dafny; `dafny verify dfyconfig.toml` checks all
of it.

## What is modelled

Modules follow the program's parts.

- **The compact proofs.** `InnerProductArgument`, `RangeVectors`, `RangeProof`, `RangeCompleteness` and
  `RangeMethods` model the aggregated Bulletproof range proof and its inner-product argument;
  `Comparator`, `ComparatorRows` and `ComparatorProof` the canonical comparator; `LinkProof` and
  `LinkMethods` the digit link proof; `Fallback` puts the three together. The fast single-sum verifier is
  proved equivalent to the verifier that folds generators. `HonestDealer` shows that honest proofs exist and
  are accepted. `Interpolation`, `InnerProductSoundness`, `InnerProductForks`, `RangeExtraction`,
  `RangeSoundness` and `RangeForks` extract openings from accepted range proofs, `FallbackSoundness` and
  `FallbackExtraction` from accepted fallbacks: every receiver decrypts a canonical scalar.
  `ChallengeBinding` says what each challenge binds.
- **Arithmetic.** `Modular`, `Polynomials`, `Vectors`, `Bits` and `Lagrange` hold the algebra.
  `DiscreteLog`, `ChunkEncryption` and `ChunkRoundTrip` model digit encryption, homomorphic aggregation and
  bounded decryption. `ThresholdSigner` models Shamir keys and Lagrange recovery in the exponent.
  `FiniteField` and `Codeword` model GF(256) and the shard fingerprints.
- **Dispersal and one-shot signing.** `Merkle`, `Dispersal`, `RecoveryCollector` and `LockCollector` model
  encoding, stores, recovery and locks. `OneShot` is the distributed protocol shared by storage locks
  (`StorageLocks`), decisions (`Decisions`) and component certificates (`Components`): honest members
  persist before they sign, a restart keeps only the files, faulty members sign anything, and messages
  arrive in any order. `ComponentShards` holds the shard checks, `ComponentRecovery` dispersal and recovery,
  `ComponentRuns` builds runs, `ComponentRestarts` counts what restarts cost, and `ComponentLife` follows an
  honest component from dispersal to recovery.
- **Accelerators and schedulers.** `WorkerPool`, `FirstValid`, `RecoveryScheduler`, `CandidateRegistry`,
  `FanoutTree` (with `Sorting`), `PointHints`, `Eligibility` and `SelectionCode` are proved against simple definitions.

## How it is modelled

- A scalar is an integer read modulo an arbitrary prime `q`. A point of the prime-order group is its
  exponent; no operation looks at an exponent except through addition, scaling and comparison. A pairing is
  a product of exponents.
- A Fiat-Shamir challenge is an arbitrary function of a label and a transcript; a zero challenge is refused
  wherever the program refuses it. Randomness, the square-root estimate, network behaviour and worker
  schedules are parameters or non-deterministic choices.
- A hash is the term that was hashed, so it is injective and its domains are separate. A threshold
  certificate in a protocol run exists exactly when enough distinct members have signed.
- The erasure code is any pair of functions that decodes what it encoded from enough shards; for
  fingerprints it is any GF(256) matrix.
- The decoding of points is over any prime field with square roots and a curve `y^2 = x^3 + 4` without
  points of order two. BLS12-381 is one, since the order of its curve group is odd.
- The commitment bases are numbers too, so binding is not a hypothesis. A soundness theorem ends in the
  openings or in a relation between the bases, and the relation is a named function of challenges and
  answers: nothing extracted looks at a point.
- Loops of the program are loops here, proved against recursive definitions; objects whose fields change
  are classes.

## What turned out false of the code

- The derived lock threshold `2f + 1` with `n >= 3f + 1` gives unique locks only for `n = 3f + 1`
  (`StorageLocks.DerivedThreshold`).
- A claim for a dealer is kept in memory only, so restarts can lead to two valid descriptors for one dealer,
  exactly when at least `n - 3f` members restart (`ComponentRestarts.ConflictPerDealerExactly`).
  Certificates for one dealer and one leaf digest always agree, and a dealer that is honest and does not
  restart has one certificate only.

A remark on the branch loop of the component shard check: it does not bound the branch length, so taken by
itself it can lead two payloads of one index to one root (`Merkle.ConflictExactly`). The codeword check that
follows makes the two collide only under a zero fingerprint of their difference
(`ComponentShards.SamePayloadOrFork`), and under an honest root it is impossible (`Merkle.HonestRootBinds`).

## Model

| member | source | states |
|---|---|---|
| `InnerProductArgument.WeightsExpandFolds` | core/apvss_compact_range.go:612-682 | folding a generator vector round by round gives, for every power-of-two length, the sum of the generators weighted by products of challenges chosen by index bits |
| `InnerProductArgument.BitWeightIsWeight` | core/apvss_compact_range.go:722-740 | the per-generator product of challenges and inverses selected by the bits of the generator index is the weight that recursive folding produces |
| `InnerProductArgument.SingleSumDecidesRecursive` | core/apvss_compact_range.go:684-763 | the single multi-scalar equation vanishes exactly when the verifier that folds generators and commitment accepts, for every proof and every challenge list |
| `InnerProductArgument.FoldCommit` | core/apvss_compact_range.go:643-682 | one round keeps the commitment relation: the folded vectors open the next commitment built from the two cross points |
| `InnerProductArgument.Complete` | core/apvss_compact_range.go:612-682 | every honest inner-product proof is accepted, for every power-of-two length and all non-zero challenges |
| `InnerProductArgument.Prove` | core/apvss_compact_range.go:612-682 | the folding loop returns the honest proof, and nothing for vectors of unequal or non-power-of-two length |
| `InnerProductArgument.Verify` | core/apvss_compact_range.go:684-763 | the single-sum verifier accepts exactly the proofs the folding verifier accepts |
| `InnerProductArgument.GeneratorWeight` | core/apvss_compact_range.go:722-740 | the inner loop over rounds computes the bit-indexed weight of one generator |
| `InnerProductSoundness.WitnessOpens` | core/apvss_compact_range.go:684-763 | knowledge soundness: from a tree of accepted proofs, four challenges with different squares per round, two vectors are computed that open the commitment with their inner product, or a vector computed from challenges and answers is a relation between the generators |
| `InnerProductForks.TreeGrown` | core/apvss_compact_range.go:684-763 | accepted proofs whose round points are shared and whose challenges part where their paths part make such a tree |
| `ChallengeBinding.RoundsBind` | core/apvss_compact_range.go:612-682 | a round's challenge that is the same under every oracle comes from the same transcript and the same round points up to its own |
| `RangeMethods.RoundedUp` | core/apvss_compact_range.go:51-60 | the least power of two that is at least the value, refused for zero and beyond 2^20 |
| `RangeMethods.RangeDimensions` | core/apvss_compact_range.go:62-75 | padded count and vector length, present exactly for supported counts and widths |
| `RangeProof.DimensionsSound` | core/apvss_compact_range.go:62-75 | supported dimensions are powers of two and the padding is the least that fits |
| `RangeProof.DimensionsExactly` | core/apvss_compact_range.go:51-75 | supported exactly for 1 to 63 bits and a padded total that is a power of two of at most 2^20 |
| `RangeProof.AcceptedHeader` | core/apvss_compact_range.go:470-533 | an accepted proof is for as many values as there are commitments, of the asked width, with a 32-byte statement and no zero challenge |
| `RangeVectors.ConstantIsValuesPlusDelta` | core/apvss_compact_range.go:447-468 | the constant term of the vector product is the weighted sum of the values plus delta, for every count, width and challenge |
| `RangeMethods.RangeDelta` | core/apvss_compact_range.go:447-468 | the two loops compute delta |
| `RangeCompleteness.PaddingIsFree` | core/apvss_compact_range.go:270-285 | padding a vector with zeros leaves its weighted sum unchanged, be it values, blindings or commitments |
| `RangeCompleteness.PaddedOpenings` | core/apvss_compact_range.go:270-285 | the padded commitments still open to the padded values under the padded blindings, entry by entry |
| `RangeCompleteness.HonestPolynomialCheck` | core/apvss_compact_range.go:370-395 | honest answers satisfy the polynomial commitment equation with its delta term, whatever the challenges |
| `RangeCompleteness.ReconstructedIsCommit` | core/apvss_compact_range.go:571-587 | the verifier's reconstructed commitment is the commitment to exactly the prover's two evaluated vectors and their product |
| `RangeCompleteness.Complete` | core/apvss_compact_range.go:230-445 | every honest range proof is accepted, for every count of in-range values and every supported width |
| `RangeMethods.Prove` | core/apvss_compact_range.go:230-445 | the prover refuses values out of range, commitments that do not open and unsupported sizes, sends the honest proof otherwise, and everything it sends is accepted |
| `RangeMethods.Verify` | core/apvss_compact_range.go:470-599 | the verifier decides exactly the acceptance condition, with the inner product checked by the single sum; what that condition is worth is `RangeForks.RangeSound` |
| `RangeForks.ThreeProofs` | core/apvss_compact_range.go:500-545 | three accepted proofs that share everything up to x and part there open the weighted commitments: value times the answers interpolated at zero less delta, plus blind times the interpolated blinding |
| `RangeForks.ManyProofs` | core/apvss_compact_range.go:470-545 | with as many different z as commitments, three proofs for each, every commitment gets its own opening, interpolated from the answers |
| `RangeForks.RangeSound` | core/apvss_compact_range.go:470-599 | knowledge soundness of the range proof: from accepted proofs for one statement with enough different challenges at every step, every commitment opens to a number below 2^bits with computed value and blinding, or something computed from the answers is a relation between the bases |
| `RangeSoundness.Sound` | core/apvss_compact_range.go:447-599 | the extraction behind it: the two vectors behind the first messages are bits and their negated complements, and the values are what the bits write |
| `ChallengeBinding.XBinds` | core/apvss_compact_range.go:485-533 | the challenge x binds statement, sizes, commitments, both vector commitments and both polynomial commitments |
| `ChallengeBinding.WBinds` | core/apvss_compact_range.go:535-560 | the challenge w binds all of these and the three answers |
| `Vectors.InnerProduct` | core/apvss_compact_range.go:121-149 | scalar inner product and point multi-sum are the reduced inner product |
| `Comparator.ModulusDigits` | core/apvss_compact_fallback.go:49-63 | byte digits of q - 1, present exactly when the count is positive and large enough |
| `Comparator.ComplementDigits` | core/apvss_compact_fallback.go:65-80 | byte digits of q - 1 - scalar, refused for a non-canonical scalar |
| `Comparator.BorrowChainExact` | core/apvss_compact_fallback.go:82-109 | the borrow chain succeeds exactly when scalar and complement add up to the modulus digits as integers |
| `Comparator.Borrows` | core/apvss_compact_fallback.go:82-109 | the loop succeeds exactly on the right complement and returns bits that satisfy every borrow equation |
| `Comparator.LaneExact` | core/apvss_compact_fallback.go:82-109 | in-range digits and bits satisfy the equations modulo q exactly when scalar and complement add up to q - 1 and the bits are its borrows; then the scalar is at most q - 1 |
| `ComparatorRows.Regroup` | core/apvss_compact_fallback.go:159-219 | collecting one coefficient per commitment is the same as weighting whole borrow equations |
| `ComparatorRows.VanishingIsCanonical` | core/apvss_compact_fallback.go:159-219 | if the combination vanishes at as many distinct weights as there are equations, every lane writes a scalar at most q - 1 with its true complement and borrows |
| `ComparatorRows.CanonicalVanishes` | core/apvss_compact_fallback.go:159-219 | canonical lanes make the combination vanish at every weight |
| `ComparatorProof.Coefficients` | core/apvss_compact_fallback.go:179-206 | the nested loops give every scalar and complement the negated weight, every borrow 256 times one weight minus the next, and the generator the weighted modulus digits |
| `ComparatorProof.Aggregate` | core/apvss_compact_fallback.go:159-232 | aggregate point and aggregate blinding are the weighted sums of the borrow equations over points and over blindings |
| `ComparatorProof.HonestAggregate` | core/apvss_compact_fallback.go:207-232 | honest openings make the aggregate point the aggregate blinding times the blinding base |
| `ComparatorProof.HonestRelation` | core/apvss_compact_fallback.go:340-357 | the honest response passes the final check for every challenge |
| `ComparatorProof.RelationExtracts` | core/apvss_compact_fallback.go:411-419 | two accepted responses to one first move exhibit the aggregate as a multiple of the blinding base |
| `ComparatorProof.Openings` | core/apvss_compact_fallback.go:263-302 | complements and borrows of all lanes exist exactly when each lane's digits write its canonical scalar |
| `ComparatorProof.Prove` | core/apvss_compact_fallback.go:234-357 | the prover sends the honest comparator proof whenever the digits write the scalars, and every proof it sends is accepted |
| `ComparatorProof.Verify` | core/apvss_compact_fallback.go:359-421 | the verifier decides exactly the acceptance condition |
| `ComparatorProof.AcceptedSizes` | core/apvss_compact_fallback.go:359-410 | an accepted proof has one complement per digit and one borrow less per lane, and neither weight nor modulus size is degenerate |
| `ChallengeBinding.ComparatorBinds` | core/apvss_compact_fallback.go:340-419 | the comparator's challenge binds the statement, the aggregate and the first move |
| `Fallback.Verify` | core/apvss_compact_fallback.go:460-490 | link, digit range and comparator are checked over one statement; acceptance is their conjunction |
| `Fallback.Prove` | core/apvss_compact_fallback.go:423-458 | an honest dealer's fallback is the three honest proofs, and every fallback produced is accepted |
| `Fallback.OpenedLaneDecrypts` | core/apvss_compact_fallback.go:460-490 | openings with byte digits of a canonical scalar leave the receiver one reading: decryption returns exactly that scalar and the public relation holds |
| `FallbackSoundness.VanishesOrDepends` | core/apvss_compact_fallback.go:359-421 | two accepted fallbacks that part at the comparator's challenge make the weighted equations of the ranged openings vanish, or give a dependence of the two commitment bases computed from the two responses |
| `FallbackSoundness.LaneAgreesOrDepends` | core/apvss_compact_fallback.go:460-490 | the digits that two link responses open a lane to are those of the range openings, or a digit they disagree on gives a dependence of the bases |
| `FallbackSoundness.Sound` | core/apvss_compact_fallback.go:460-490 | for openings within the proved ranges: accepted fallbacks over one set of commitments, a pair parting at the link's challenge and pairs at enough distinct weights parting at the comparator's, make every lane write a canonical scalar that its receiver decrypts exactly, or one of the proofs gives an explicit dependence of the two bases |
| `FallbackExtraction.SoundFromProofs` | core/apvss_compact_fallback.go:460-490 | the same from accepted fallbacks alone: the openings are extracted from the three range proofs, and the further outcome is a relation between the bases computed there |
| `HonestDealer.DealAndProve` | core/apvss_compact_fallback.go:423-490 | for any canonical scalars, receivers and randomness of supported size, an honest dealer's fallback is produced unless a challenge is zero, and the verifier accepts it |
| `HonestDealer.Receive` | core/cv_sapvss.go:483-547 | every receiver of an honest leaf decrypts exactly its scalar, and the public relation holds |
| `LinkProof.SpecialSound` | core/apvss_compact_link.go:509-585 | two accepting responses to one first move under different challenges determine digits and coins that open every digit commitment, every ciphertext and the radix-weighted evaluation commitment, and the blinding in Pedersen mode |
| `LinkProof.OpenedDecrypts` | core/apvss_compact_link.go:509-585 | an opened lane is a share whose receiver reads exactly the opened digits |
| `LinkMethods.LaneComplete` | core/apvss_compact_link.go:330-466 | an honest lane is accepted under every challenge, in Pedersen and in Feldman mode |
| `LinkMethods.Complete` | core/apvss_compact_link.go:281-466 | an honest link proof is accepted for every choice of receivers, secrets and randomness, in both modes |
| `LinkMethods.Prove` | core/apvss_compact_link.go:281-466 | the prover succeeds exactly when the witness opens every named lane and the lanes are well ordered, and sends the honest proof |
| `LinkMethods.VerifyLane` | core/apvss_compact_link.go:505-585 | one lane's loop with running power and running evaluation decides exactly the lane's equations |
| `LinkMethods.Verify` | core/apvss_compact_link.go:478-587 | the verifier decides exactly the acceptance condition |
| `LinkProof.AcceptedLanes` | core/apvss_compact_link.go:478-520 | an accepted proof covers different receivers of the leaf, within the lane limit, one digit per chunk |
| `ChallengeBinding.LinkBinds` | core/apvss_compact_link.go:210-234 | the link's challenge binds the mode, the statement, the number of lanes and every lane's first move |
| `ChunkEncryption.ProfileSound` | core/cv_sapvss.go:103-121 | a supported profile has the least number of digits that covers every scalar, and a sum of maxComponents digits stays below the modulus and the search bound |
| `ChunkEncryption.ProfileSupported` | core/cv_sapvss.go:103-121 | a profile is supported exactly for 1 to 20 bits per chunk and digit sums below the modulus and at most 2^32 |
| `ChunkEncryption.ScalarDigits` | core/cv_sapvss.go:284-301 | masking and shifting give the radix digits, which always cover a canonical scalar |
| `ChunkEncryption.EncryptShare` | core/cv_sapvss.go:303-357 | the share is the honest encryption of the digits, refused for an infinite key or a wrong coin count |
| `ChunkEncryption.Aggregate` | core/cv_sapvss.go:393-427 | the pointwise sum, present exactly for one to maxComponents valid shares under one key |
| `DiscreteLog.NewSolver` | core/cv_sapvss.go:440-463 | from any square-root estimate the table holds exactly the first width multiples, the width covers the bound, and all arithmetic fits in 64 bits |
| `DiscreteLog.Solve` | core/cv_sapvss.go:465-481 | returns v for v times the generator with v within the bound and fails for every other point |
| `ChunkEncryption.Decrypt` | core/cv_sapvss.go:483-536 | succeeds exactly when the checks pass and every chunk hides a digit within the bound, and returns what those digits write modulo q |
| `ChunkEncryption.ReadsOnce` | core/cv_sapvss.go:509-523 | a share has at most one reading within the bound |
| `ChunkRoundTrip.AddHolds` | core/cv_sapvss.go:409-424 | adding ciphertexts adds digits, scalars and blindings |
| `ChunkRoundTrip.TotalDigitsSound` | core/cv_sapvss.go:393-427 | digit sums of n scalars stay within n times the largest digit and still write the sum of the scalars |
| `ChunkRoundTrip.EndToEnd` | core/cv_sapvss.go:303-547 | for honest shares of up to maxComponents scalars under one key, every reading of their aggregate within the decryption bound opens to the sum of the scalars modulo q and satisfies the public relation, and such a reading exists |
| `ChunkRoundTrip.EncryptAggregateDecrypt` | core/cv_sapvss.go:303-547 | encrypting up to maxComponents scalars to one key, aggregating and decrypting, with the program's own operations, always succeeds and yields exactly their sum modulo q; the result satisfies the public relation |
| `ThresholdSigner.NewSigner` | core/crypto_runtime.go:233-293 | share i is the sharing polynomial at i + 1, public shares and group key match, and every member has its own position |
| `ThresholdSigner.SignShare` | core/crypto_runtime.go:435-453 | a member's share is its secret share times the hashed message, refused for strangers and members without local keys |
| `ThresholdSigner.HonestShareVerifies` | core/crypto_runtime.go:456-477 | every share a member signs passes the share check |
| `ThresholdSigner.PairingExact` | core/crypto_runtime.go:456-477 | the pairing check accepts exactly the multiple of the hashed message by the key's secret |
| `ThresholdSigner.LagrangeCoefficient` | core/crypto_runtime.go:497-513 | the loop computes the Lagrange coefficient at zero of one node |
| `ThresholdSigner.Recover` | core/crypto_runtime.go:480-528 | fails below the threshold, otherwise returns the Lagrange combination of all contributors in member order |
| `Lagrange.UnitSum` | core/crypto_runtime.go:495-513 | the coefficients of any distinct nodes add up to one |
| `Lagrange.InterpolationAtZero` | core/crypto_runtime.go:480-528 | over any distinct nodes, at least as many as coefficients, the combination recovers the constant term |
| `ThresholdSigner.RecoverySound` | core/crypto_runtime.go:480-548 | any t or more verified shares recover the group secret times the hashed message, independent of the set chosen; it verifies, and nothing else does |
| `FiniteField.GF256Mul` | core/cv_sapvss_component_codeword.go:30-44 | the shift-and-XOR loop computes the eight-step product |
| `FiniteField.MulCommutes` | core/cv_sapvss_component_codeword.go:30-44 | the product is commutative |
| `FiniteField.MulAssociates` | core/cv_sapvss_component_codeword.go:30-44 | the product is associative |
| `FiniteField.MulDistributes` | core/cv_sapvss_component_codeword.go:30-44 | the product distributes over XOR on both sides and zero annihilates |
| `FiniteField.MulOne` | core/cv_sapvss_component_codeword.go:30-44 | one is the unit |
| `FiniteField.Reduction` | core/cv_sapvss_component_codeword.go:29-44 | multiplying by x shifts left and reduces modulo x^8 + x^4 + x^3 + x^2 + 1 when the top bit falls out |
| `Codeword.ShardFingerprint` | core/cv_sapvss_component_codeword.go:58-73 | the nested loops compute the sixteen combinations, refused for empty or mismatched input |
| `Codeword.FingerprintOfUnit` | core/cv_sapvss_component_codeword.go:58-73 | in check number c, byte i of a payload counts with coefficient c times the width plus i; with linearity this determines all sixteen combinations |
| `Codeword.ShardOfUnit` | core/cv_sapvss_component_codeword.go:97-106 | entry (j, i) of the matrix is what data shard i counts for in shard j |
| `Codeword.BuildCodewordProof` | core/cv_sapvss_component_codeword.go:75-95 | the fingerprints of the data shards, refused for unequal lengths |
| `Codeword.FingerprintCommutes` | core/cv_sapvss_component_codeword.go:58-106 | fingerprinting commutes with any GF(256)-linear code, for every shard |
| `Codeword.HonestShardsAccepted` | core/cv_sapvss_component_codeword.go:97-126 | every shard of an honest encoding passes the check, parity shards included |
| `Codeword.FingerprintDifference` | core/cv_sapvss_component_codeword.go:58-73 | two payloads of one length have equal fingerprints exactly when their difference has a zero fingerprint |
| `Codeword.AcceptedExactly` | core/cv_sapvss_component_codeword.go:108-126 | a payload passes exactly when its difference from the codeword shard has a zero fingerprint |
| `Merkle.BranchCorrect` | core/cv_sapvss_apdb.go:112-186 | every built branch has the advertised depth and leads to the root, odd levels included |
| `Merkle.BuildMerkle` | core/cv_sapvss_apdb.go:112-143 | the level and branch loops build exactly the root and branches of the shards |
| `Merkle.MerkleDepth` | core/cv_sapvss_apdb.go:179-186 | the halving loop computes the branch length |
| `Merkle.DepthExactly` | core/cv_sapvss_apdb.go:179-186 | the depth is the least with enough leaves |
| `Merkle.LevelEntry` | core/cv_sapvss_apdb.go:112-143 | two neighbours are hashed left before right, and a node without a neighbour with itself |
| `Merkle.ClimbBinds` | core/cv_sapvss_apdb.go:151-177 | branches of one length bind: one position under one root holds one digest |
| `Merkle.ShardRootInjective` | core/cv_sapvss_apdb.go:112-149 | equal roots imply equal shard vectors, their number included |
| `Merkle.HonestRootBinds` | core/cv_sapvss_component.go:314-335 | under the root of an honest tree a branch of any length can only show the honest shard |
| `Merkle.ConflictExactly` | core/cv_sapvss_component.go:319-332 | the sibling loop alone, which does not check the branch length: some root carries two payloads for one index exactly when the two lengths send the index down paths that part |
| `ComponentShards.VerifyPiece` | core/cv_sapvss_component.go:314-335 | branch loop and codeword check together decide exactly whether the shard is valid |
| `ComponentShards.SamePayloadOrFork` | core/cv_sapvss_component.go:314-335 | two valid shards of one dispersal and index carry one payload, or their branch lengths send the index down different paths and the difference of the payloads has a zero fingerprint under the coefficients of that very root |
| `ComponentShards.SecondPieceExactly` | core/cv_sapvss_component_codeword.go:108-126 | next to a valid shard, another payload on a branch of the same index is valid exactly when the difference has a zero fingerprint |
| `ComponentShards.ForkExactly` | core/cv_sapvss_component.go:314-335 | one dispersal can carry two payloads for one index exactly when some root carries both on branches of those lengths and its own coefficients give their difference a zero fingerprint |
| `Dispersal.EncodeSized` | core/cv_sapvss_apdb.go:79-110 | frames, encodes and commits the payload: root and one store per holder, exactly for the admissible sizes, parity shards included, when the code is lawful |
| `Dispersal.EncodeAndRecover` | core/cv_sapvss_apdb.go:79-260 | every admissible payload is encoded into one store per holder, and any dataShards or more different stores, in any order, give exactly the payload back |
| `Dispersal.VerifyStore` | core/cv_sapvss_apdb.go:151-177 | accepts exactly stores of the right size and depth whose branch leads to their root |
| `Dispersal.StoreBinding` | core/cv_sapvss_apdb.go:151-177 | two valid stores for one instance, root and index are equal |
| `Dispersal.HonestStoreValid` | core/cv_sapvss_apdb.go:79-110 | every store of an honest encoding is valid |
| `Dispersal.AuthenticUnique` | core/cv_sapvss_apdb.go:211-260 | a root has at most one payload that re-encodes to it |
| `Dispersal.Recover` | core/cv_sapvss_apdb.go:211-260 | what is recovered re-encodes to the locked root, and if the root has such a payload every usable set of stores recovers it |
| `RecoveryCollector.Collector.AddDecodedStore` | core/cv_sapvss_apdb_recovery.go:122-152 | files a matching store under its holder's index once, reports duplicates and refuses conflicts, leaving everything else unchanged |
| `RecoveryCollector.Collector.CommitPayload` | core/cv_sapvss_apdb_recovery.go:205-232 | the first authentic payload is kept even when others were being checked meanwhile; with a lawful code no conflict is possible |
| `RecoveryCollector.Collector.AddPayload` | core/cv_sapvss_apdb_recovery.go:156-232 | a full payload is accepted exactly when it reproduces the locked root |
| `RecoveryCollector.Collector.Recover` | core/cv_sapvss_apdb_recovery.go:252-283 | by either path the result is the authentic payload, exactly when one exists and passes the binding check |
| `RecoveryCollector.CollectAndRecover` | core/cv_sapvss_apdb_recovery.go:122-283 | from any dataShards or more holders of an honest dispersal, in any order, every store is filed and the payload is recovered |
| `RecoveryCollector.RecoveriesAgree` | core/cv_sapvss_apdb_recovery.go:122-283 | any two successful recoveries against one lock return the same payload |
| `LockCollector.Collector.AddDecodedStoredShare` | core/cv_sapvss_apdb_service_scalar.go:107-137 | keeps one verified share per holder; repeats are idempotent and conflicts are refused |
| `LockCollector.FirstShares` | core/cv_sapvss_apdb_service_scalar.go:139-157 | exactly t shares, taken from those collected |
| `LockCollector.Collector.RecoverLock` | core/cv_sapvss_apdb_service_scalar.go:139-172 | with t shares a lock is always produced, and its certificate is the only one that verifies |
| `LockCollector.CollectAndLock` | core/cv_sapvss_apdb_service_scalar.go:107-172 | from any t members of the roster, in any order, every signed share is accepted and the lock is produced |
| `OneShot.RunKeepsInv` | core/cv_sapvss_store.go:211-259 | in every reachable state, restarts included, honest signatures are backed by accepted records on file under their key |
| `OneShot.HonestSignsOnce` | core/cv_sapvss_store.go:211-259 | no honest member ever signs two statements whose records share a key |
| `OneShot.CertificatesAgree` | core/cv_sapvss_apdb_store.go:25-67 | with 2t > n + f, certified statements under one key are equal in every run |
| `OneShot.CertifiedIsHeld` | core/cv_sapvss_apdb_store.go:50-66 | a certificate means at least t - f honest members hold the record |
| `OneShot.HonestCertify` | core/cv_sapvss_apdb_store.go:25-67 | a statement whose records the honest members accept is certified by them alone, the faulty keeping silent |
| `OneShot.ConflictRun` | core/cv_sapvss_apdb_store.go:25-67 | with 2t <= n + f, at most f faulty members suffice for a run that certifies two statements under one key |
| `StorageLocks.HolderStore.StoreAndSignOnce` | core/cv_sapvss_apdb_store.go:25-67 | persists then signs, once per key: a key keeps its first store for ever and nothing else changes |
| `StorageLocks.HolderStore.Read` | core/cv_sapvss_apdb_store.go:69-92 | releases exactly the valid store of the requested lock |
| `StorageLocks.HolderStore.HonestAcceptable` | core/cv_sapvss_apdb_store.go:25-48 | the store that an honest dispersal sends to a holder is one it accepts |
| `StorageLocks.LockReached` | core/cv_sapvss_apdb_store.go:25-67 | every admissible payload gets a lock from the honest holders alone, and the lock's root is that of the payload |
| `StorageLocks.LocksAgree` | core/cv_sapvss_apdb_store.go:25-67 | with 2t > n + f, one instance has one locked root in every run of a session |
| `StorageLocks.LocksUniqueExactly` | core/cv_sapvss_apdb_store.go:25-67 | locks are unique in every run if and only if 2t > n + f |
| `StorageLocks.DerivedThreshold` | core/cv_sapvss_scalar_params.go:94-101 | with the derived threshold 2f + 1 and n >= 3f + 1, locks are unique if and only if n = 3f + 1 |
| `StorageLocks.LockedIsRecoverable` | core/cv_sapvss_apdb_service_scalar.go:139-224 | a valid lock always leaves a usable set of matching stores on file with honest holders |
| `Decisions.DecisionStore.SignHandoffOnce` | core/cv_sapvss_decision_store.go:27-64 | the durable record is the one-shot transition: the statement is signed only when its record is the one on file |
| `Decisions.Receiver.HandleHandoff` | core/cv_sapvss_apdb_network_scalar.go:4202-4243 | a handoff is checked against the certificates of the run at that point; the first valid one is kept for ever, old members keep its certificate, and what a node remembers stays valid however the run goes on |
| `Decisions.MemberDecidesOnce` | core/cv_sapvss_decision_store.go:27-64 | no honest member signs two decision statements in one session, restarts included |
| `Decisions.DecisionAgreement` | core/cv_sapvss_apdb_network_scalar.go:2066-2207 | with 2t > n + f, valid handoffs at any two points of a run carry the same header and lock |
| `Decisions.DecisionReached` | core/cv_sapvss_decision_store.go:27-64 | a decision that the honest members take is certified by them alone and its handoff becomes valid |
| `Decisions.DerivedDecisionThreshold` | core/cv_sapvss_scalar_params.go:94-102 | the derived threshold n - f always suffices for agreement |
| `Decisions.ReceiversAgree` | core/cv_sapvss_apdb_network_scalar.go:4202-4243 | whatever handoffs two receivers have accepted in a run are the same |
| `Components.Holder.Claim` | core/cv_sapvss_component_service.go:944-955 | the first statement claimed for a dealer is the only one until the process ends |
| `Components.Holder.HandleInit` | core/cv_sapvss_component_service.go:1406-1473 | an acknowledgement leaves only for a claimed statement whose shard is on file, exactly when all checks pass |
| `Components.Holder.HandleGet` | core/cv_sapvss_component_service.go:1516-1528 | answers with the filed artifact |
| `Components.Refines` | core/cv_sapvss_component_service.go:1406-1473 | forgetting the claims turns every run into a run of the durable one-shot protocol |
| `Components.CertificatesAgreePerLeaf` | core/cv_sapvss_component_service.go:1406-1473 | certificates for one dealer and leaf digest agree in every run, restarts included |
| `Components.DescriptorRetrievable` | core/cv_sapvss_component.go:500-532 | every valid descriptor is served by at least n - 2f honest holders with shards the retriever accepts |
| `Components.AcceptedIsValid` | core/cv_sapvss_component_service.go:1530-1558 | whoever sent it, an accepted artifact holds a valid shard of the descriptor's dispersal under the sender's index |
| `ComponentRecovery.Disperse` | core/cv_sapvss_component.go:281-312 | the dealer sends the honest dispersal of its leaf, one shard with its branch per holder, for every leaf of 1 to 64 MiB whose code fits |
| `ComponentRecovery.HonestPieceValid` | core/cv_sapvss_component.go:314-335 | every shard of an honest dispersal under a linear code passes branch and codeword checks, parity shards included |
| `ComponentRecovery.FillTable` | core/cv_sapvss_component.go:337-347 | the shard table is filled exactly when every shard is valid and filed under its own index, in whatever order the map is read |
| `ComponentRecovery.Recover` | core/cv_sapvss_component.go:337-365 | returns the leaf framed in what the code decodes from the table of valid shards, exactly when it hashes to both digests of the dispersal |
| `ComponentRecovery.HonestRecovered` | core/cv_sapvss_component.go:337-365 | for an honest dispersal every sufficient set of valid shards, whoever sent them, gives the leaf back |
| `ComponentRecovery.RecoveriesAgree` | core/cv_sapvss_component.go:337-365 | two successful recoveries from any shards, for dispersals that agree only in the payload digest, return the same leaf, and the dispersals agree in the semantic commitment |
| `ComponentLife.Deal` | core/cv_sapvss_component.go:281-312 | every leaf of admissible size can be dealt as an honest component |
| `ComponentLife.ArtifactsFileable` | core/cv_sapvss_component_service.go:1406-1473 | every holder files its shard of an honest component |
| `ComponentLife.HonestCertified` | core/cv_sapvss_component_service.go:1406-1473 | an honest dealer's component gets a valid descriptor from the honest members alone, without a restart, whichever at most f members stay silent |
| `ComponentLife.ServedAvailable` | core/cv_sapvss_component.go:337-347 | in every run the shards that honest holders serve for a valid descriptor suffice for recovery and are all valid |
| `ComponentLife.HonestLife` | core/cv_sapvss_component.go:281-365 | accepted, certified, retrieved, recovered: after an honest dealer's dispersal, whatever the members do next, restarts and forged signatures included, the served shards give its leaf back |
| `ComponentRestarts.ExecuteKeepsClaims` | core/cv_sapvss_component_service.go:944-955 | in every run a member that never restarted has claimed everything it signed as holder or dealer, and honest holders sign only what its dealer signed |
| `ComponentRestarts.CertificatesAgreePerDealer` | core/cv_sapvss_component_service.go:944-955 | certificates for one dealer agree in every run with fewer than n - 3f restarted honest members |
| `ComponentRestarts.HonestDealerUnique` | core/cv_sapvss_component_service.go:1406-1473 | a dealer that is honest and does not restart has at most one certified statement, whoever else restarts |
| `ComponentRestarts.RestartsConflict` | core/cv_sapvss_component_service.go:944-955 | a run with n - 3f restarts, built from two concrete dispersals, gives one dealer two valid descriptors: a faulty dealer, or for f = 0 an honest one that restarts |
| `ComponentRestarts.ConflictPerDealerExactly` | core/cv_sapvss_component_service.go:944-955 | a dealer can get two valid descriptors if and only if at least n - 3f members restart |
| `WorkerPool.FinishedTable` | core/cv_parallel.go:230-264 | every finished schedule of every number of workers leaves the same table |
| `WorkerPool.Finishes` | core/cv_parallel.go:230-264 | with a worker at all, every schedule can be carried to its end and is over exactly after two steps per job |
| `WorkerPool.FirstErrorExactly` | core/cv_parallel.go:266-273 | the error reported is that of the first job that has one, and none exactly when no job has |
| `WorkerPool.ParallelMatchesSequential` | core/cv_parallel.go:188-224 | the parallel run reports exactly the error the sequential run reports |
| `WorkerPool.RunSequential` | core/cv_parallel.go:188-200 | the one-worker path returns the lowest-index error |
| `WorkerPool.FirstOrderedError` | core/cv_parallel.go:266-273 | the scan returns the lowest-index error of a finished table |
| `FirstValid.LoadOrdered` | core/cv_parallel.go:230-264 | whatever order workers finish in, result i is the load of descriptor i |
| `FirstValid.SelectInBatches` | core/cv_sapvss_aggregate_service.go:859-884 | unless interrupted, the shrinking-batch loop selects exactly when at least want positions of the pool load, and then what stands at the first of them, in order and none left out |
| `FirstValid.FirstKExact` | core/cv_sapvss_aggregate_service.go:859-884 | the plain filter's prefix exists exactly when enough positions load and holds the first of them |
| `FirstValid.Service.Resolve` | core/cv_sapvss_aggregate_service.go:1195-1246 | an offer resolves exactly to the selection of its accepted pool, cached or not, when size, dealers and root match, and to nothing otherwise |
| `FirstValid.Service.VerifyManifest` | core/cv_sapvss_aggregate_service.go:1316-1373 | for resolved components the aggregate, from either cache or rebuilt, is returned exactly when the root is theirs and the header carries its digest and the root and payload digest of its dispersal |
| `FirstValid.Service.VerifyOffer` | core/cv_sapvss_aggregate_service.go:1310-1373 | an offer verifies exactly when it resolves and its header describes the aggregate of that selection and its dispersal; caches make no difference |
| `FirstValid.Service.Select` | core/cv_sapvss_aggregate_service.go:844-884 | the cached-aggregate shortcut returns the same selection and aggregate as the batch loop |
| `FirstValid.Service.Materialize` | core/cv_sapvss_aggregate_service.go:844-945 | the offer made is the one for the first valid components of the pool, whether they were loaded in batches or reused from a cache |
| `FirstValid.OfferAccepted` | core/cv_sapvss_aggregate_service.go:1310-1373 | an offer that one node materializes is verified, with the same aggregate, by every node that has accepted the pool |
| `FirstValid.PrefixSelected` | core/cv_sapvss_aggregate_service.go:844-858 | when the first want descriptors are all valid they are the selection |
| `RecoveryScheduler.Track` | core/cv_sapvss_apdb_network_scalar.go:2963-2985 | one send reports each new success once and keeps the failures |
| `RecoveryScheduler.WaveTargets` | core/cv_sapvss_apdb_network_scalar.go:2986-3001 | a wave addresses allowed recipients that are not reached yet, each once |
| `RecoveryScheduler.RunWaves` | core/cv_sapvss_apdb_network_scalar.go:2984-3035 | unless a poll ends it, one send per wave that still has someone to ask, in wave order, to exactly the allowed recipients of the wave not reached before; a wave without a send had nobody left |
| `RecoveryScheduler.SendRequests` | core/cv_sapvss_apdb_network_scalar.go:2952-3097 | the first sends are the waves and the last ones retries to everyone still missing, at most maxRetries + 1, another only while fewer than dataShards are reached; no resends to a reached recipient, each success reported once, and an end without error and not ready only when enough or all were reached |
| `CandidateRegistry.Registry.RememberVerified` | core/cv_sapvss_candidate_network_scalar.go:595-622 | keeps and sends the first candidate of a proposer, knows repeats and refuses conflicts |
| `CandidateRegistry.Registry.RegisterOrigin` | core/cv_sapvss_candidate_network_scalar.go:624-645 | an eligible origin reserves its slot once while the sample is not full |
| `CandidateRegistry.OnePerProposer` | core/cv_sapvss_candidate_network_scalar.go:552-645 | in every interleaving each proposer has at most one accepted candidate, and it is in the sample |
| `CandidateRegistry.NetworkExactly` | core/cv_sapvss_candidate_network_scalar.go:552-622 | a network candidate is accepted and sent exactly when its proposer is in the sample and its slot is free or its own |
| `CandidateRegistry.AnnouncedIsSent` | core/cv_sapvss_candidate_network_scalar.go:552-645 | once an origin has reserved its slot for a candidate, whatever arrives in between, that candidate is accepted and sent when it comes and no other of that origin ever is |
| `CandidateRegistry.Registry.AcceptNetwork` | core/cv_sapvss_candidate_network_scalar.go:552-593 | a network candidate takes the run's step: an ineligible proposer changes nothing |
| `CandidateRegistry.Registry.CertifyAndPublish` | core/cv_sapvss_proposer_scalar.go:206-223 | a node's own candidate takes the run's step: certification refuses a proposer outside the sample, publication anyone but the node itself |
| `CandidateRegistry.SentBound` | core/cv_sapvss_candidate_network_scalar.go:595-645 | in every run the candidates ever sent number at most the proposer sample, so no send on the channel blocks |
| `CandidateRegistry.OverflowExactly` | core/cv_sapvss_validation_request_scalar.go:199-205 | what the eligibility check of certification is worth: the channel could overflow exactly if publication skipped it at a node outside a full sample |
| `FanoutTree.Peers` | core/cv_sapvss_candidate_network_scalar.go:454-488 | everyone else in order, or in tree mode the existing heap children of the member's position in the sorted roster rotated to the origin; none for strangers |
| `FanoutTree.HeapChildren` | core/cv_sapvss_candidate_network_scalar.go:470-488 | member number i of the rotated roster sends to numbers 2i + 1 and 2i + 2 and to nobody else |
| `FanoutTree.OthersExactly` | core/cv_sapvss_candidate_network_scalar.go:454-468 | outside tree mode the peers are everyone but the two, in order |
| `FanoutTree.PeersPartition` | core/cv_sapvss_candidate_network_scalar.go:454-488 | whatever members leave out, nobody sends to the origin and anyone else is sent to by exactly its parent, unless the parent leaves exactly that one out |
| `FanoutTree.EveryoneReached` | core/cv_sapvss_candidate_network_scalar.go:1016-1037 | relaying from the origin reaches every member although each relay leaves out the member it heard from |
| `PointHints.HintIsFaithful` | core/cv_point_hints.go:75-147 | a hint that recompresses to the wire is the point the wire decodes to |
| `PointHints.RecompressDecodes` | core/cv_point_subgroup_batch.go:41-109 | a curve point decodes from its compressed form whichever square root the library returns |
| `PointHints.DecodeExactly` | core/cv_point_subgroup_batch.go:22-109 | what the decoder accepts, mask bits and root choice written out, both ways |
| `PointHints.CanonicalExactly` | core/cv_point_hints.go:111-128 | over any field a decodable wire recompresses to itself exactly unless it asks for the larger root at an x where x^3 + 4 vanishes |
| `PointHints.WireIsCanonical` | core/cv_point_hints.go:111-128 | on a curve without points of order two every decodable wire recompresses to itself |
| `PointHints.Reader.ConsumeHint` | core/cv_point_hints.go:132-147 | a hint is consumed exactly when it fits, and the first misfit ends hinting |
| `PointHints.Reader.PointDeferred` | core/cv_point_subgroup_batch.go:161-179 | the point is the same with any hints as with none |
| `PointHints.Reader.DecodeWires` | core/cv_point_subgroup_batch.go:161-179 | a whole wire decodes the same with any hints, and hints recorded from a decode of it are all consumed |
| `PointHints.RecordAndReplay` | core/cv_point_hints.go:47-147 | recording one decode and replaying it on another gives the same points and leaves no hint |
| `Eligibility.Binomial` | core/cv_eligibility.go:34-47 | multiply-then-divide divides exactly at every step and yields the binomial coefficient |
| `Eligibility.ChooseFactorial` | core/cv_eligibility.go:34-47 | the coefficients are n! / (k! (n - k)!) |
| `Eligibility.SampleSize` | core/cv_eligibility.go:16-32 | the size returned is the smallest that meets the bound, and every larger one meets it too |
| `SelectionCode.SelectionRoundTrip` | core/cv_sapvss_agreement_scalar.go:155-169 | decoding a compact selection gives it back and leaves exactly the bytes that followed |
| `SelectionCode.EncodeSelection` | core/cv_sapvss_agreement_scalar.go:155-169 | the loop writes the zigzag varint encoding, refusing indices outside the pool |
| `SelectionCode.DecodeSelection` | core/cv_sapvss_agreement_scalar.go:286-304 | the loop reads exactly what the recursive decoder reads |
| `SelectionCode.DecodeSound` | core/cv_sapvss_agreement_scalar.go:286-304 | whatever is decoded has the asked number of indices, all in the pool, and what is left is the end of the input |
| `SelectionCode.VarintFormat` | core/cv_sapvss_agreement_scalar.go:155-169 | bytes of seven bits, lowest first, all but the last with the top bit set, no more than needed |

## Left out

- Curve arithmetic, pairings, hash-to-curve, the batch subgroup check and the wire codecs of proofs: library code or field-by-field copying.
- Zero knowledge, and the probability that a prover who can answer one challenge can answer as many as the extraction needs: soundness is stated for the answers themselves.
- The Feldman and field-congruent fallback wrappers: they reuse the link and range proofs without the comparator.
- Shared-coin encryption and the digit point table: a batched form of the same encryption.
- The 256 by 256 multiplication table: a cache of `GF256Mul`.
- The likelihood that random coefficients give a difference a zero fingerprint: the shard lemmas name the collision and do not bound its probability.
- The dealer's collection of acknowledgements and the retriever's request loop: they only gather what the certificate and the recovery already describe.
- Runs that span several sessions with the same signing keys: every run fixes one session identifier and epoch.
- Transport, envelopes, the agreement engine, timers and metrics: message delivery and timeouts are non-deterministic.
- Key loading, registries, file modes and setup bundles: input and output.
- `StorageLocks.HolderStore.StoreAndSignOnce` and `Decisions.DecisionStore.SignHandoffOnce` treat a file as written atomically; a crash between the write and the signature is a separate step of the protocol model.
