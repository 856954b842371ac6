# cc-vrf: a verified model

This project models cc-vrf, an on-chain verifiable random function for Solana, in Dafny, and proves what its parts
promise alone and together. It has three layers.

**The stream expander** (`Bits`, `Doubles`, `Rejection`, `Shuffle`, `ExpandInput`, `Stream`). One VRF output is expanded
into an infinite byte sequence of SHA-512 blocks. `Stream.VrfStream` is the buffered reader as a class with the source's
own fields; its ghost position ties every call to the sequence. On top of it the masked rejection sampling is proved
exactly uniform, Fisher-Yates is proved a bijection between choice vectors and permutations, and the two compose: every
permutation comes from the same number of accepted word vectors.

**The ECVRF** (`Modular`, `Group`, `Ciphersuite`, `Keypair`, `HashToCurve`, `Ecvrf`, `Rfc9381`), after sections 5.1,
5.2, 5.3, 5.4.1.1, 5.4.2.2, 5.4.3 and 5.5 of RFC 9381 and section 5.1.5 of RFC 8032. The curve group is the integers
modulo 8q for a prime q between 2^252 and 2^253. Proved are honest completeness through the 80-byte encoding, special
soundness, and what is unique: beta and not the proof. `Rfc9381` states the standards as relations between byte strings
and numbers, above nothing but the hash, the point encoding and the little-endian value, and proves that key derivation,
proving, verifying and hashing decide exactly these.

**The registry and its clients** (`Registry`, `Instructions`, `Addresses`, `Verdicts`, `Operations`, `Scan`,
`EndToEnd`). The six instructions are methods of a chain object, each proved against one step function. `Instructions`
lists the checks of each instruction and its effect, and proves that a step is the first failing check or that effect.
Runs are sequences of steps, and invariants, provenance and revocation are proved over all runs. The verifiers, builders
and the paginated scan follow the client code, and `EndToEnd` joins builder, chain and verifier.

## What is taken as given

- The curve library: `multiply` rejects scalars outside [1, q), points are written as 32 bytes, decoding inverts encoding
  and accepts nothing else. A nonce of zero therefore makes proving throw.
- SHA-512 and SHA-256 are arbitrary functions with outputs of 64 and 32 bytes. Neither they nor the address derivation
  are assumed injective: where a promise needs it, the stated alternative is a concrete collision.
- Light: an input account is accepted exactly when it is the current leaf at its address, a new address must be unused,
  and an instruction is atomic. The flags `proof` and `tree` of an instruction stand for a validity proof and an address
  tree in order. The slot never decreases.
- The RPC serves an owner's history in non-empty pages within the page limit; fetching a transaction may fail.
- Account data is read field by field: surplus bytes are ignored and missing bytes throw.
- Strings are their byte encodings.

## Where the code and its documentation differ

- `packages/ecvrf/src/expand.ts:138` masks with a signed 32-bit result, so ranges above 2^31, which line 127 allows, can
  return values below the lower bound. `Rejection.InRangeIffHalf` gives the exact condition, and
  `Shuffle.HoleIffNegative` what it means for a shuffle of more than 2^31 elements.
- `packages/ecvrf/src/expand.ts:120` accepts any integer-valued doubles as bounds. Beyond 2^53 the sum in line 139 is
  rounded and can equal the excluded bound (`Stream.SumReachesMax`); `Doubles.InRangeIffGap` and `Doubles.SumsExactIff`
  give the exact conditions.
- The documentation promises exactly one valid proof for a key and an input. `Ecvrf.ProofsDifferByNonce` shows that every
  nonce gives another accepted proof; what they share is beta.
- Comments call revocation informational and historical proofs verifiable. The full verdict becomes false on revocation
  and the base verdict stays true (`EndToEnd.RegistryCommitVerifies`).
- `pickCanonicalCommit` looks at the proof hash only, so it can pick a candidate with a wrong alpha hash
  (`EndToEnd.PickIgnoresInputHash`). `Verdicts.PicksAlphaIff` and `Verdicts.PicksAlphaInEveryOrderIff` give the exact
  conditions on the candidates, for their given order and for every order.
- Scan results are described as oldest first. The events of one transaction come in reverse log order
  (`Scan.TwoEventsComeReversed`); `Scan.ScanChronologicalIff` says exactly when the documented order holds. A history
  exactly as long as the limit also counts as truncated.
- The signature lookup is recommended as the robust mode. It needs no complete scan (`EndToEnd.LookupPipeline`), but
  unlike the scan it also returns events from the logs of failed transactions (`Scan.FailedOnlyInLookup`).
- The stream is described as unbounded. Its blocks repeat after 2^64 of them (`ExpandInput.BlocksRepeatIff`).
- A label padded with zeroes is not unique to its text (`Addresses.LabelsCollideIff`).

## Model

| member | source | states |
|---|---|---|
| Encoding.ConcatBytes | packages/ecvrf/src/encoding.ts:1-11 | the parts one behind the other, nothing else |
| Encoding.BytesToBigIntBE | packages/ecvrf/src/encoding.ts:13-17 | the big-endian value, below 256^length, from which the bytes can be re-encoded |
| Encoding.BytesToBigIntLE | packages/ecvrf/src/encoding.ts:19-25 | the little-endian value, below 256^length, from which the bytes can be re-encoded |
| Encoding.BigIntToBytesBE | packages/ecvrf/src/encoding.ts:27-39 | succeeds exactly for 0 <= n < 256^length and then decodes back to n; otherwise the negative or the overflow error |
| Encoding.BigIntToBytesLE | packages/ecvrf/src/encoding.ts:41-53 | the same in the other byte order |
| Encoding.DecodeEncodeLE | packages/ecvrf/src/encoding.ts:19-53 | decoding undoes encoding for every integer that fits |
| Encoding.EncodeDecodeLE | packages/ecvrf/src/encoding.ts:19-53 | encoding undoes decoding for every byte string |
| Encoding.EncodeDecodeBE | packages/ecvrf/src/encoding.ts:13-39 | the same for the big-endian pair |
| Encoding.LEIsBEReversed | packages/ecvrf/src/encoding.ts:13-25 | little-endian is big-endian of the reversed bytes |
| Encoding.DigitOfLE | packages/ecvrf/src/encoding.ts:19-25 | byte i of a string is base-256 digit i of its little-endian value |
| Encoding.DigitOfBE | packages/ecvrf/src/encoding.ts:13-17 | byte i, counted from the end, is a digit of its big-endian value |
| Encoding.BytesEqual | packages/ecvrf/src/encoding.ts:76-81 | the or of all xors is zero exactly when the arrays are equal, lengths included |
| Bits.BitByBit | packages/ecvrf/src/encoding.ts:76-81 | or, and, xor act on every bit by itself |
| Bits.ShiftedBit | packages/ecvrf/src/expand.ts:131-135 | shifting right moves every bit down by the distance |
| Hex.HexToBytes | packages/ecvrf/src/encoding.ts:55-68 | the in-place loop computes the decoder, with its two errors in order |
| Hex.HexRoundTrip | packages/ecvrf/src/encoding.ts:55-74 | the text of any byte string decodes, and to that byte string |
| Hex.HexCanonical | packages/ecvrf/src/encoding.ts:55-74 | decoding succeeds exactly on even-length hex text, and re-encoding gives its lower-cased unprefixed form |
| Hex.TextAt | packages/ecvrf/src/encoding.ts:70-74 | the two digits of byte i stand at 2i and 2i + 1, high half first, from the alphabet 0-9a-f |
| ExpandInput.U32be | packages/ecvrf/src/expand.ts:24-31 | the low 32 bits, most significant byte first |
| ExpandInput.U64be | packages/ecvrf/src/expand.ts:33-41 | the low 64 bits, most significant byte first |
| ExpandInput.EncodePathParts | packages/ecvrf/src/expand.ts:43-52 | the count, then every segment behind its length |
| ExpandInput.PathPrefixFree | packages/ecvrf/src/expand.ts:43-52 | the path encoding is injective and no encoding is a proper prefix of another |
| ExpandInput.BlockInputInjective | packages/ecvrf/src/expand.ts:79-82 | beta, path and block index below 2^64 can be read back from the hash input, so distinct streams and blocks never share one |
| ExpandInput.BlocksRepeatIff | packages/ecvrf/src/expand.ts:33-41 | two blocks of a stream share a hash input exactly when their indices agree modulo 2^64 |
| ExpandInput.BlockInputIff | packages/ecvrf/src/expand.ts:13-22 | a string is the hash input of a block if and only if it reads from the front as the tag's text, beta, a count, length-prefixed segments and an eight-byte big-endian index |
| ExpandInput.PathReadsBack | packages/ecvrf/src/expand.ts:43-52 | a reader that knows only the count and the length prefixes recovers the path and what follows it |
| Stream.VrfStream.Create | packages/ecvrf/src/expand.ts:67-77 | throws exactly on a beta that is not 64 bytes; otherwise a stream at position 0 on its own copy of beta |
| Stream.VrfStream.Refill | packages/ecvrf/src/expand.ts:79-85 | the buffer becomes the next block of the sequence |
| Stream.VrfStream.BlocksRoundedUp | packages/ecvrf/src/expand.ts:75-85 | the block counter is always the position divided by 64, rounded up |
| Stream.VrfStream.NextBytes | packages/ecvrf/src/expand.ts:87-101 | the bytes [pos, pos + n) of the infinite block sequence in a fresh array, for every n; throws and stays put on a negative n |
| Stream.SliceSplit | packages/ecvrf/src/expand.ts:87-101 | m bytes and then n bytes are m + n bytes |
| Stream.SliceMeaning | packages/ecvrf/src/expand.ts:79-101 | byte k of a draw from pos is byte (pos + k) mod 64 of the hash of the string that reads as block (pos + k) / 64 |
| Stream.DrawInPieces | packages/ecvrf/src/expand.ts:87-101 | any split of a draw into calls yields the bytes of one call |
| Stream.VrfStream.NextU32 | packages/ecvrf/src/expand.ts:103-106 | the big-endian word at the position, four bytes consumed |
| Stream.WordMeaning | packages/ecvrf/src/expand.ts:103-106 | a word is its four bytes, most significant first |
| Stream.VrfStream.NextU64 | packages/ecvrf/src/expand.ts:108-113 | the big-endian 64-bit value at the position, eight bytes consumed |
| Stream.LongMeaning | packages/ecvrf/src/expand.ts:108-113 | a 64-bit value is its two words, the first in the high half |
| Stream.VrfStream.NextFloat | packages/ecvrf/src/expand.ts:115-117 | the top 53 bits over 2^53, in [0, 1) |
| Stream.VrfStream.NextRange | packages/ecvrf/src/expand.ts:119-141 | min plus the masked value of the first accepted word, rounded to a double, four bytes consumed per word tried; up to a range of 2^31 in [min, max], below max whenever max - 1 is below max in doubles, and the exact sum for bounds within 2^53 of zero; the two errors consume nothing; terminates with the distance to that word as measure |
| Doubles.SumsExactIff | packages/ecvrf/src/expand.ts:126-139 | for bounds that are doubles, every sum min + v with v < range is exact if and only if -2^53 <= min and max <= 2^53 |
| Doubles.InRangeIffGap | packages/ecvrf/src/expand.ts:119-139 | the rounded sums all stay in [min, max) if and only if max - 1, rounded, is below max; they never leave [min, max] |
| Stream.SumReachesMax | packages/ecvrf/src/expand.ts:119-139 | the accepted bounds 2^53 and 2^53 + 4 return the excluded bound 2^53 + 4 on the word 3 |
| Doubles.NoneNearer | packages/ecvrf/src/expand.ts:126-139 | the double an integer result is rounded to is a double, and none is nearer |
| Doubles.TiesGoToEven | packages/ecvrf/src/expand.ts:139 | a sum halfway between two doubles is rounded to the one with the even significand |
| Doubles.FitsAsProduct | packages/ecvrf/src/expand.ts:120 | every double is a number of 53 bits times a power of two |
| Doubles.ProductFits | packages/ecvrf/src/expand.ts:120 | and every such product is a double |
| Stream.Source.DrawMeaning | packages/ecvrf/src/expand.ts:137-140 | a draw stops at the first accepted word and right behind it |
| Stream.VrfStream.Pick | packages/ecvrf/src/expand.ts:143-146 | the element at the drawn index, undefined exactly when the drawn index is negative, which no array of at most 2^31 elements meets; throws on the empty array |
| Stream.VrfStream.Shuffled | packages/ecvrf/src/expand.ts:148-157 | a fresh array on which exactly the drawn exchanges were made, and the exact bytes consumed; it is the Fisher-Yates permutation of the input if and only if no draw is negative, always up to 2^31 elements; the input array is not in the frame |
| Shuffle.HoleIffNegative | packages/ecvrf/src/expand.ts:148-157 | one negative draw leaves a hole for good: the result has none if and only if no draw is negative |
| Shuffle.ExchangedIsFisherYates | packages/ecvrf/src/expand.ts:148-157 | the in-place exchanges are Fisher-Yates as a function of its choices, and nothing is written outside the array |
| Shuffle.ExchangeMeaning | packages/ecvrf/src/expand.ts:152-154 | one exchange swaps exactly two places, one of which may lie outside the array |
| Stream.PlanFollowsWords | packages/ecvrf/src/expand.ts:148-157 | the choices of a shuffle are the offsets of the words it accepts, one accepted word for each range n, ..., 2 |
| Stream.VrfStream.Fork | packages/ecvrf/src/expand.ts:159-161 | a fresh stream on the extended path at position 0; the parent does not move |
| Stream.ForkSeparates | packages/ecvrf/src/expand.ts:159-161 | below block 2^64 a fork with at least one label never hashes an input of its parent; a fork without labels is the parent again from position 0 |
| Stream.OutsidersCannotInterfere | packages/ecvrf/src/expand.ts:71-73 | for every interleaving of draws from a stream and its fork with writes of anything into the caller's beta, either exposed beta or any array returned before, each stream hands out exactly its own sequence |
| Rejection.MaskIsOnes | packages/ecvrf/src/expand.ts:130-136 | the smeared mask is 2^k - 1 with k least such that 2^k >= range |
| Rejection.MaskedWord | packages/ecvrf/src/expand.ts:130-138 | masking a word, with the signed result of the operator, keeps its low k bits |
| Rejection.InRangeIffHalf | packages/ecvrf/src/expand.ts:126-140 | every accepted value lies in [0, range) if and only if range <= 2^31 |
| Rejection.NegativeResult | packages/ecvrf/src/expand.ts:127-140 | the allowed range 2^32 returns -1 on the word 0xffffffff |
| Rejection.ExactlyUniform | packages/ecvrf/src/expand.ts:126-140 | for range <= 2^31 every value has exactly 2^(32-k) accepted words |
| Rejection.MostWordsAccepted | packages/ecvrf/src/expand.ts:126-140 | more than half of all words are accepted |
| Shuffle.FisherYatesPermutes | packages/ecvrf/src/expand.ts:148-157 | every choice vector gives a permutation |
| Shuffle.EveryPermutationReached | packages/ecvrf/src/expand.ts:148-157 | every permutation is reached by some choice vector |
| Shuffle.ChoicesRecovered | packages/ecvrf/src/expand.ts:148-157 | on distinct elements the choice vector can be read back from the arrangement: the map is a bijection |
| Shuffle.ShuffleExactlyUniform | packages/ecvrf/src/expand.ts:119-157 | every permutation of distinct elements comes from exactly the same number of accepted word vectors, and those are characterised |
| Group.PrimeOrderMeaning | packages/ecvrf/src/verify.ts:48-49 | the small-order and torsion gates pass exactly the nonzero points of the prime-order part |
| Group.SpecialSoundness | packages/ecvrf/src/verify.ts:53-61 | two answers with different challenges to the same U and V reveal one x with Y = xB and Gamma = xH |
| Group.WrongGammaOneChallenge | packages/ecvrf/src/verify.ts:53-64 | a Gamma other than xH can answer at most one challenge per pair (U, V) |
| Group.HonestAnswer | packages/ecvrf/src/prove.ts:36-41 | with s congruent to k + cx modulo q, sP - c(xP) = kP |
| Group.CofactorInjective | packages/ecvrf/src/proofToHash.ts:37 | multiplying by 8 is injective on the points the gates pass |
| Ciphersuite.PurposesDisjoint | packages/ecvrf/src/expand.ts:14-22 | no expander, challenge, hash-to-curve and proof-to-hash inputs coincide |
| Ciphersuite.ChallengeInputInjective | packages/ecvrf/src/challenge.ts:37-46 | the challenge input determines all five points |
| Ciphersuite.ToCurveInputInjective | packages/ecvrf/src/hashToCurve.ts:43-50 | behind a key of fixed length the input determines key, alpha and counter |
| Ciphersuite.Suite.Challenge | packages/ecvrf/src/challenge.ts:48-50 | the 16-byte truncation keeps the challenge below 2^128 |
| Ciphersuite.Suite.MultiplyOrZero | packages/ecvrf/src/verify.ts:53-60 | the guarded multiplication is plain scalar multiplication for every scalar below q and never throws there |
| Keypair.ClampHash | packages/ecvrf/src/keypair.ts:26-30 | the in-place clamping of the first hash half |
| Keypair.ClampedValue | packages/ecvrf/src/keypair.ts:28-33 | the clamped integer is 8m with 2^251 <= m < 2^252 |
| Keypair.ScalarNeverZero | packages/ecvrf/src/keypair.ts:31-34 | the derived scalar is in [1, q) |
| Keypair.KeyPassesGates | packages/ecvrf/src/keypair.ts:19-37 | deriving throws exactly on a seed that is not 32 bytes, and every public key decodes and passes the verifier's gates |
| HashToCurve.EncodeToCurveTAI | packages/ecvrf/src/hashToCurve.ts:33-70 | the counter loop computes the first success |
| HashToCurve.LeastCounter | packages/ecvrf/src/hashToCurve.ts:41-69 | the point comes from the least successful counter, is of prime order, and the loop throws exactly when all 256 counters fail |
| Ecvrf.VerifyMeaning | packages/ecvrf/src/verify.ts:23-65 | false when a gate fails; throws exactly when the gates pass and no curve point is found; otherwise true exactly when the proof answers its own challenge |
| Ecvrf.ProveMeaning | packages/ecvrf/src/prove.ts:22-51 | returns exactly for 32-byte seeds with a curve point and a nonzero nonce, and then Gamma = xH, the challenge over (Y, H, Gamma, kB, kH) and (k + cx) mod q in 32 + 16 + 32 bytes |
| Ecvrf.FieldsReadBack | packages/ecvrf/src/prove.ts:44-48 | the proof is 80 bytes and the verifier reads the same Gamma, c and s back |
| Ecvrf.HonestCompleteness | packages/ecvrf/src/prove.ts:22-51 | whenever proving returns, the proof is 80 bytes and verifies under the published key |
| Ecvrf.HonestProofAccepted | packages/ecvrf/src/prove.ts:31-48 | with any nonce in [1, q) the proof is accepted and hashes to the same beta |
| Ecvrf.ProofsDifferByNonce | packages/ecvrf/src/prove.ts:33-48 | different nonces give different accepted proofs with one beta, so the proof is not unique |
| Ecvrf.AcceptedProofHashes | packages/ecvrf/src/proofToHash.ts:26-47 | hashing an accepted proof never throws and hashes the cleared Gamma |
| Ecvrf.SameBetaInputIffSameGamma | packages/ecvrf/src/proofToHash.ts:30-42 | accepted proofs feed the same bytes to the output hash exactly when they carry the same Gamma |
| Ecvrf.HonestOutputIffHonestGamma | packages/ecvrf/src/verify.ts:23-65 | an accepted proof has the honest output exactly when its Gamma is xH |
| Ecvrf.ForgedGammaNeedsItsChallenge | packages/ecvrf/src/verify.ts:53-64 | a proof with another Gamma answers, for its commitments, no challenge but the one it carries |
| Rfc9381.ProveIff | packages/ecvrf/src/prove.ts:22-51 | a byte string is the returned proof if and only if it is the proof of section 5.1: the fields are Gamma, sixteen bytes of the hash of the laid-out challenge input, and k + cx modulo q, with the key, curve point and nonce of their sections |
| Rfc9381.VerifyIff | packages/ecvrf/src/verify.ts:23-65 | a proof is accepted if and only if section 5.3 accepts it: with U = sB - cY and V = sH - c Gamma modulo 8q, its challenge bytes are those of the hash of the laid-out challenge input |
| Rfc9381.OutputIff | packages/ecvrf/src/proofToHash.ts:26-47 | a byte string is the returned beta if and only if it is the hash of the laid-out input on eight times a gated Gamma |
| Rfc9381.OutputErrors | packages/ecvrf/src/proofToHash.ts:26-36 | the three errors of proof hashing and their order |
| Rfc9381.ChallengeMeaning | packages/ecvrf/src/challenge.ts:26-51 | the challenge encodes to the first sixteen hash bytes of any string of 163 bytes with the five points in their places, U before V |
| Rfc9381.KeyIff | packages/ecvrf/src/keypair.ts:19-37 | scalar and point are those of the clamped first hash half: low three bits and top bit cleared, the bit below set, all other bytes kept |
| Rfc9381.PublicKeyIff | packages/ecvrf/src/keypair.ts:52-55 | the public key is the encoded point of that key |
| Rfc9381.CurvePointIff | packages/ecvrf/src/hashToCurve.ts:33-70 | a point is returned if and only if it is eight times the point that starts the hash of the laid-out input of the first succeeding counter |
| Rfc9381.NonceMeaning | packages/ecvrf/src/nonce.ts:17-26 | the nonce is the reduced little-endian hash of the second key-hash half followed by the point |
| Registry.Chain.InitAuthority | programs/cc-vrf/src/instructions/init_authority.rs:25-79 | the handler's effect and errors are those of Step |
| Registry.Chain.FreezeAuthority | programs/cc-vrf/src/instructions/freeze_authority.rs:21-47 | the handler's effect and errors are those of Step |
| Registry.Chain.RevokeAuthority | programs/cc-vrf/src/instructions/revoke_authority.rs:24-49 | the handler's effect and errors are those of Step |
| Registry.Chain.CommitProof | programs/cc-vrf/src/instructions/commit_proof.rs:35-115 | the handler's effect and errors are those of Step |
| Registry.Chain.CommitProofWithBeta | programs/cc-vrf/src/instructions/commit_proof_with_beta.rs:32-111 | the handler's effect and errors are those of Step |
| Registry.Chain.CommitProofEvent | programs/cc-vrf/src/instructions/commit_proof_event.rs:36-94 | the handler's effect and errors are those of Step |
| Registry.Chain.Replay | programs/cc-vrf/src/state.rs:7-12 | any sequence of handler calls and clock steps leads to the state that the run of those actions has; all theorems about runs are about the handlers |
| Instructions.OutcomeOf | programs/cc-vrf/src/instructions/commit_proof_with_beta.rs:46-108 | each of the six instructions is accepted exactly when none of its checks fails, and otherwise rejected with the first failing one in its handler's order |
| Instructions.LifecycleEffect | programs/cc-vrf/src/instructions/init_authority.rs:63-76 | an accepted creation stores its arguments, the slot and both flags down; freezing and revoking raise one flag; nothing else changes |
| Instructions.RecordEffect | programs/cc-vrf/src/instructions/commit_proof_with_beta.rs:92-108 | an accepted registry commit adds one record with the instruction's hashes, the slot and both beta halves in their places; nothing else changes |
| Instructions.EventEffect | programs/cc-vrf/src/instructions/commit_proof_event.rs:81-92 | an accepted event commit appends one event with the instruction's fields and the slot; nothing else changes |
| Instructions.Seeds | programs/cc-vrf/src/state.rs:32-60 | the two address families are derived from the texts vrf_authority and vrf_proof and two fields in order |
| Registry.RunKeeps | programs/cc-vrf/src/state.rs:7-12 | from any state of a run to any later one: nothing is removed, records and events never change, owner, key, suite, label and creation slot never change even before freezing, the two flags only rise |
| Registry.RunSound | programs/cc-vrf/src/instructions/init_authority.rs:34-71 | every stored authority sits at the address of its own owner and label with suite 3, every record at the address of its own authority and memo, and only frozen authorities have records or events |
| Registry.OneRecordPerMemo | programs/cc-vrf/src/state.rs:96-98 | an authority and memo hash have at most one record of either shape |
| Registry.ReplayRejected | programs/cc-vrf/src/instructions/commit_proof.rs:20-23 | once a memo is committed, every later registry commit for it in either shape is rejected |
| Registry.RecordProvenance | programs/cc-vrf/src/instructions/commit_proof.rs:46-112 | every record was added, as it is and with that step's slot, in a state where its authority was frozen and not revoked |
| Registry.EventProvenance | programs/cc-vrf/src/instructions/commit_proof_event.rs:46-92 | every event was emitted in a state where its authority was frozen and not revoked |
| Registry.NothingAfterRevocation | programs/cc-vrf/src/instructions/revoke_authority.rs:35-37 | a revoked authority gets no further record and no further event |
| Registry.RevokedBeforeFrozen | programs/cc-vrf/src/instructions/revoke_authority.rs:15-17 | an authority revoked before it is frozen never gets a record or an event |
| Registry.OnlyOwnerActs | programs/cc-vrf/src/instructions/commit_proof.rs:46-49 | whatever an instruction adds, changes or emits is signed for by the owner of the authority concerned |
| Registry.FlagsMoveExactly | programs/cc-vrf/src/instructions/freeze_authority.rs:27-35 | a stored authority's flags rise exactly by its own freeze and revoke instructions |
| Addresses.EncodeLabel | packages/vrf-client/src/addresses.ts:97-105 | the text first and zeroes up to 32 bytes; throws exactly above 32 bytes |
| Addresses.LabelsCollideIff | packages/vrf-client/src/addresses.ts:97-105 | two texts encode to one label exactly when they agree up to trailing zero bytes |
| Verdicts.VerifyEndToEnd | packages/vrf-client/src/verifyEndToEnd.ts:157-217 | every flag is its check, the verdict their conjunction, beta present exactly with a valid proof, one reason per failed check in order; throws exactly where verification of the proof does |
| Verdicts.VerifyAuthorityCommit | packages/vrf-client/src/verifyEndToEnd.ts:219-305 | the same for lifecycle, owner, label, rederived address and beta; throws exactly where the base verdict does or the label is not 32 bytes |
| Verdicts.VerdictMeaning | packages/vrf-client/src/verifyEndToEnd.ts:219-305 | a returned verdict is valid exactly when everything holds, and exactly when it carries no reason |
| Verdicts.BaseVerdictIff | packages/vrf-client/src/verifyEndToEnd.ts:157-217 | an omitted suite counts as suite 3: the base verdict is valid exactly when no other suite is given, the proof verifies and the three hashes match |
| Verdicts.FullyValidIff | packages/vrf-client/src/verifyEndToEnd.ts:219-305 | the full verdict spelled out: expectations count only when given, and the address is rederived under the given program or the default one |
| Verdicts.BaseReasonsPinned | packages/vrf-client/src/verifyEndToEnd.ts:160-196 | which reason a failed check gives, and the order of several |
| Verdicts.FurtherReasonsPinned | packages/vrf-client/src/verifyEndToEnd.ts:230-286 | each further reason stands alone when its check is the only one to fail |
| Verdicts.FurtherReasonsOrdered | packages/vrf-client/src/verifyEndToEnd.ts:230-286 | the order of the further reasons |
| Verdicts.PickedIsFirst | packages/vrf-client/src/verifyEndToEnd.ts:143-155 | the first candidate with the proof's hash is picked, none exactly when there is none, and several are reported exactly when there are several |
| Verdicts.PickReports | packages/vrf-client/src/verifyEndToEnd.ts:149-154 | the candidates are handed back unchanged, and more than one counts as duplicates |
| Operations.BuilderErrors | packages/vrf-client/src/operations.ts:314-412 | wrong lengths are reported before anything is fetched, a wrong beta behind everything else |
| Hex.DecodeErrors | packages/ecvrf/src/encoding.ts:55-62 | odd length first, then characters that are no hex digits; the prefix counts for neither |
| Verdicts.PicksAlphaIff | packages/vrf-client/src/verifyEndToEnd.ts:143-155 | a candidate with a given alpha hash is picked if and only if the first candidate with the proof's hash has it |
| Verdicts.PicksAlphaInEveryOrderIff | packages/vrf-client/src/verifyEndToEnd.ts:136-155 | it is picked in every order of the candidates if and only if some candidate has the proof's hash and all that do have this alpha hash |
| Operations.BuildsIff | packages/vrf-client/src/operations.ts:288-412 | the builders' checks on the authority, the proof and the beta pass exactly when the stored authority can commit, its key verifies the proof and, with a beta, the beta is the proof's own; the validity proof that the registry builders also request for the unused record address is not part of it |
| Operations.FetchAuthorityIff | packages/vrf-client/src/operations.ts:93-130 | an authority is fetched exactly when one is stored at its derived address, and every field is shown |
| Operations.FetchCommitMeaning | packages/vrf-client/src/operations.ts:136-173 | a record of either shape is fetched with its hashes, a plain one with its slot; one with a beta shows its first beta bytes there |
| Operations.FetchBetaMeaning | packages/vrf-client/src/operations.ts:730-771 | only a record with a beta is fetched with its beta: hashes, slot and the two halves in order |
| Operations.BuiltCommitAcceptedIff | packages/vrf-client/src/operations.ts:314-361 | a built commit is accepted in a state exactly if the fetched authority is current there and its owner's, and the record's address unused |
| Operations.BuiltBetaAcceptedIff | packages/vrf-client/src/operations.ts:668-724 | the same for the commit with a beta, carrying its halves in order |
| Operations.BuiltEventAcceptedIff | packages/vrf-client/src/operations.ts:372-412 | a built event commit is accepted exactly if the fetched authority is current, its owner's and stored under the requested label |
| Operations.RefusedIff | packages/vrf-client/src/operations.ts:288-307 | each error of the builders' checks has exactly one cause: suite, then flags, then proof |
| Operations.InitBuiltAndAppliedIff | packages/vrf-client/src/operations.ts:185-233 | an authority is created exactly for a 32-byte key and label, suite 3 and an unused address |
| Operations.LifecycleBuiltAndAppliedIff | packages/vrf-client/src/operations.ts:240-276 | the freeze and revoke builders build for any stored authority; applied at once the instruction succeeds exactly for the owner and, to freeze, an authority not yet frozen, and sets its flag alone |
| Scan.FindProofCommitEvents | packages/vrf-client/src/operations.ts:509-623 | over arbitrary pages the loop ends with the matching events of the newest entries up to the limit, reversed; truncated exactly when the history is at least as long as the limit |
| Scan.CollectFromTx | packages/vrf-client/src/operations.ts:541-578 | appends the matching events of one transaction, none when the logs are missing |
| Scan.FoundMeaning | packages/vrf-client/src/operations.ts:548-577 | a found event shows its transaction, slot, derived authority and all fields of the event |
| Scan.MatchesIff | packages/vrf-client/src/operations.ts:553-562 | a log entry matches exactly when it is an event of the queried owner, label and memo |
| Scan.ScanComplete | packages/vrf-client/src/operations.ts:589-622 | an untruncated scan found exactly the matching events of the non-failed fetched transactions with logs |
| Scan.ScanOrder | packages/vrf-client/src/operations.ts:618-622 | the reversed list is oldest transaction first, each transaction's events in reverse log order |
| Scan.ScanChronologicalIff | packages/vrf-client/src/operations.ts:458-460 | the documented order, oldest event first, holds if and only if the matches of every scanned transaction read the same backwards; one match per transaction suffices |
| Scan.TwoEventsComeReversed | packages/vrf-client/src/operations.ts:541-622 | one transaction with two different matching events: scan and lookup both return the later event first |
| Scan.UnfetchedContains | packages/vrf-client/src/operations.ts:607-613 | a signature is reported exactly when its transaction did not fail and could not be fetched |
| Scan.UnfetchedInOrder | packages/vrf-client/src/operations.ts:605-613 | the unfetched signatures come in the order of the history |
| Scan.LookupFinds | packages/vrf-client/src/operations.ts:580-587 | a lookup finds exactly the matching events in the logs served for the signature and reports it exactly when it was not fetched; whether the transaction failed is never asked |
| Scan.FailedOnlyInLookup | packages/vrf-client/src/operations.ts:580-614 | a match in the logs of a failed transaction is returned by the lookup and by no scan |
| EndToEnd.RegistryCommitVerifies | packages/vrf-client/src/operations.ts:314-361 | from a built and applied commit on, in every later state, authority and record can be fetched with the slot of application, the base verdict is valid, and the full verdict is valid exactly until revocation; if the stored label is another one that derives the same address, the full verdict is never valid |
| EndToEnd.BetaCommitVerifies | packages/vrf-client/src/operations.ts:668-771 | the same for the record with a beta, whose two halves reassemble to the proof's beta |
| EndToEnd.VerdictsUntilRevoked | packages/vrf-client/src/verifyEndToEnd.ts:199-305 | what the two verifiers then return: they do not throw, the base verdict is valid with the proof's beta, and the full verdict is valid exactly when every lifecycle, label, address and beta check holds |
| EndToEnd.OutcomeBinding | packages/vrf-client/src/verifyEndToEnd.ts:157-305 | for one authority and memo, two valid verdicts on records fetched at any two states of a run have the same proof, alpha and beta, or SHA-256 collides on them |
| EndToEnd.KeyBinding | packages/vrf-client/src/operations.ts:93-130 | an authority fetched at any two states of a run shows the same key, suite, owner and label |
| EndToEnd.EventPipeline | packages/vrf-client/src/operations.ts:372-412 | after a complete scan a candidate is picked whatever else was emitted; its verdict is valid until revocation if and only if the first candidate with the proof's hash has the right alpha hash, and otherwise never valid |
| EndToEnd.EventPipelineVerifies | packages/vrf-client/src/verifyEndToEnd.ts:136-155 | the pick verifies until revocation in every order of the scanned candidates if and only if all candidates with the proof's hash have the right alpha hash |
| EndToEnd.PickVerifiesInEveryOrderIff | packages/vrf-client/src/verifyEndToEnd.ts:136-155 | the same for any list of candidates of the authority and memo, however it was obtained |
| EndToEnd.LookupPipeline | packages/vrf-client/src/operations.ts:580-587 | with the signature of the transaction no complete scan is needed: a candidate is picked, and both conditions are as for a scan, on that transaction's candidates |
| EndToEnd.LookupVerdict | packages/vrf-client/src/operations.ts:580-587 | the verdict after a lookup rests on the served logs alone, not on the chain's log |
| EndToEnd.PickIgnoresInputHash | packages/vrf-client/src/verifyEndToEnd.ts:147-150 | a first candidate with the right proof hash and a wrong alpha hash is picked and never valid, and the program accepts such an event whenever it accepts the honest one |
| EndToEnd.HonestOperatorBuilds | packages/vrf-client/src/operations.ts:288-307 | whatever proveVRF returns for the stored key, all three builders accept, with its beta |
| EndToEnd.HonestLifecycle | packages/vrf-client/src/operations.ts:185-361 | create, freeze, prove, commit and verify, each instruction built by its builder in the state it meets, all succeed from any state whose two addresses are unused, ending in a valid full verdict |

## Left out

- Stream.VrfStream.NextRange: requires that some following word is accepted, since the source loops forever otherwise; the bounds are integer-valued doubles, the source's rejection of fractions and infinities is in the type.
- Doubles.NoneNearer: doubles have no largest value here; a difference of bounds that overflows is infinite in the source and takes the same error branch, and no sum overflows.
- Stream.VrfStream.NextBytes: the byte count is an integer; the source's error for fractional counts is in the type.
- Stream.VrfStream.Shuffled: requires, as NextRange does, that every draw ends; the language limits arrays to fewer than 2^32 elements.
- Stream.VrfStream.Pick: the same two conditions.
- Stream.VrfStream.NextFloat: an exact rational; the source's division is exact in double precision.
- Operations.BuildsIff: the requests for validity proofs, among them the one for the unused record address, packed account indices and signing are not modelled; a built instruction carries flags that say they are in order.
- Account decoding across kinds: fetching an authority at an address that holds a record is modelled as a throw; it would need a collision between the two seed families.
- String labels and memos, which are their bytes here.
- The other two copies of the byte comparison, in operations.ts and verifyEndToEnd.ts, which are equality like the first.
- Curve and hash internals, key generation and statistical or computational security of the hash.
- The command-line demo, the website, the test-vector generator, cost reporting and the packing code of light.ts.
