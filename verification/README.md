# Fair exchange of RSA factors: a verified model

A seller trades the factors of an RSA modulus for a payment. This project models the four
number-theoretic components that make the trade fair, and proves what each promises:

* the timed commitment, which hides bits behind repeated squaring and can be opened by the commiter
  or forced open by squaring (`TimedCommitment`, `CommitmentSpec`, `Openings`, `ZeroKnowledge`,
  `OrderSearch`, `OrderExactness`, `Generator`, `BitUtils`);
* two-party ECDSA signing over Paillier encryption (`SharedSignature`, `JointSigning`, `Ecdsa`,
  `Paillier`);
* square roots modulo n = pq, the opening of half of them, and factoring with the other half
  (`SquareRoots`, `Factoring`, `SellInformation`);
* the inner protocol that ties them together: the signature yields the keys, the time lock yields
  the half key, and what an accepted opening says about both (`SignatureKey`, `Acceptance`);
* the whole trade, with cut and choose around the instances of the inner protocol (`CutAndChoose`,
  `Trade`).

`Modular`, `Primes`, `Fermat`, `Squares` and `RepeatedSquaring` are the shared arithmetic. Nothing is
taken on trust there: modular exponentiation, Euclid's algorithm, inverses, the Chinese remainder
formula, Fermat's and Euler's theorems and Euclid's lemma are all written out and proved.

The parties (`Commiter`, `Receiver`, `S`, `B`, `Seller`, `Buyer`, `Prover`, `Verifier`) are classes whose
methods contain the program's loops. Each method is tied to a function or predicate on values
(`Honest`, `Opened`, `ForceOpened`, `SmartOpened`, `Passes`, `JointRun`, `FactoriseFrom`, `RecoveredKey`
and others), and the theorems are about those. Every sampled value is a parameter, so every theorem
holds for all choices. Exceptions are results: `Wrappers.Error` has one constructor for each
(and `NeverSampled`, for arguments outside the sampled ranges).
`Assumptions` shows that what the theorems assume of primes, keys, the curve, the cipher and the root
finder can be met, one by one and together in one setting whose instance succeeds.

## What turned out

* The program samples h and Paillier's r without testing that they are units. The model does not
  assume it either. Commit and all openings work for every h. The zero-knowledge rounds pass exactly
  when h is a unit or nothing is challenged; decryption inverts encryption exactly when r is a unit.
* The receiver does not check that the W[i] are units. For units the zero-knowledge check proves the
  whole chain modulo n; without them it does not, because `InverseMod` returns zero: with
  W[1..K-1] = 0 any u passes for all positive challenges, and the forced openings fail.
* `find_order` tries (p2-2)/2 where a safe prime calls for (p2-1)/2
  (timed_commitment/timed_commitment.cpp:67). Its result always divides phi and, for units, sends g
  to one, which is all the protocol needs. It is the exact order if and only if g² is not one modulo
  the second prime, which for large primes means that h² is not; h = n-1 is an input that fails. With
  (p2-1)/2 it always would be exact.
* The smart forced opening needs l ≤ 2^(K-1). For longer bit strings the honest commitment does not
  open with it, unless W[K-1] happens to be the key. From l = 2^(K-1) on it does not square at all and
  reads W[K-1] as it is. For every accepted commitment on which both forced openings succeed they agree
  exactly when l < 2^(K-1) or W[K-1] has the parity of the key that `force_open` reaches; otherwise the
  first bit differs. A negated W[K-1] passes `accept_commitment`, and W[K-1] + n even passes the
  zero-knowledge check too: only the check together with W[K-1] < n pins W[K-1] down.
* `verify` compares the x-coordinate with r unreduced (shared_signature/shared_sig.cpp:62), unlike
  section 4.1.4 of SEC 1 v2.0, so it rejects a correct signature exactly when the x-coordinate of the
  nonce point is not below n. A small group in which this happens is given.
* `genSquares` may sample x = n/2, which `acceptSubset` refuses (main/sell_information.h:133,
  main/sell_information.cpp:61). If x is chosen for the check this is the only way the openings can
  stop. Negative roots pass the checks of `acceptSubset` and are answered with 5, which throws later.
* For a y that is no square modulo n the seller encrypts -1 as 1, twice
  (main/sell_information.cpp:31-36); if that index is the first with both ciphertexts, `factorise`
  ends with n and 1.
* The product test in `factorise` holds exactly for unit roots of one square, also for equal or opposite
  ones, with the split (n, 1) or (1, n), and the loop then stops there. Honest roots are never equal or
  opposite, so between honest parties it finds p and q. Against other ciphertexts it finds them exactly
  when the roots at the first index with such a pair are neither equal nor opposite.
* `open` drops the bits that `open_commitment` returns, compares as many bytes of each key as were
  opened, and derives the expected keys from the signature that the seller committed to, which it does
  not compare with the verified (r, s) (main/signature_key.cpp:78-86, main/signature_key.cpp:166-189). So
  an instance with an empty time lock or empty keys is accepted. An accepted opening shows an instance
  that the buyer can rely on exactly when the opened signature is the verified one, the keys are whole,
  and the dropped bits are whole bytes whose integer times G is Qs.
* (r, n-s) is as valid as (r, s), and `factorise` derives other keys from it; the comment at
  main/sell_information.cpp:256 announces a remedy that is not there. The trade needs the signature to be
  published as it was made.

## Model

| member | source | states |
|---|---|---|
| Openings.AcceptedOpeningsAgree | timed_commitment/timed_commitment.cpp:266-307 | for n a product of two different primes that are 3 mod 4 and any accepted commitment, any two values that `open` accepts give the same bits, and these are the bits of `force_open` when it succeeds |
| Openings.SmartOpeningAgrees | timed_commitment/timed_commitment.cpp:309-324 | for every accepted commitment: when `force_open_smart` succeeds, it gives the bits of any accepted opening, and of `force_open`, exactly when l < 2^(K-1) or W[K-1] has the parity of the key that the other one uses; otherwise only the first bit differs |
| Openings.KeysExact | timed_commitment/timed_commitment.cpp:266-277 | next to one number that passes the u check and decodes, exactly the numbers with the same square do |
| Openings.EqualSquaresOpen | timed_commitment/timed_commitment.cpp:266-277 | for every n: numbers with equal squares open alike but for the first bit, which agrees exactly when their parities do |
| Openings.MiddleReplaced | timed_commitment/timed_commitment.cpp:309-324 | when l ≥ 2^(K-1), replacing W[K-1] by any number with the same square goes unnoticed by `accept_commitment` and `force_open`, and spoils the first bit of the smart opening exactly when the parity changes |
| Openings.SmartUnrootedDisagrees | timed_commitment/timed_commitment.cpp:309-313 | an instance for every odd n: with W[K-1] negated the commitment is still accepted, and the two forced openings succeed with different first bits |
| ZeroKnowledge.SmartUnreducedDisagrees | timed_commitment/timed_commitment.cpp:309-324 | another instance for every odd n: W[K-1] + n has the same effect |
| ZeroKnowledge.UnreducedStillPasses | timed_commitment/timed_commitment.cpp:245-262 | the commitment with W[K-1] + n passes exactly the transcripts that the original passes |
| Openings.HonestSmartExact | timed_commitment/timed_commitment.cpp:309-324 | on an honest commitment the smart opening returns m if l ≤ 2^(K-1) or W[K-1] is the key, and throws otherwise |
| Generator.ShortLock | timed_commitment/timed_commitment.cpp:309-324 | the throwing branch occurs: with K = 1 and two bits the smart opening throws for every unit h except those with h² = 1 |
| Openings.RootedKeyUnique | timed_commitment/timed_commitment.cpp:279-287 | among squares modulo n, the result of l squarings determines the key |
| Openings.GetGHasRoot | timed_commitment/timed_commitment.cpp:28-44 | `get_g` always returns a square modulo n |
| ZeroKnowledge.ExtractedChain | timed_commitment/timed_commitment.cpp:240-263 | soundness: given two accepting transcripts with equal first moves and challenges that differ by units modulo phi, W is the chain g^(2^(2^i)) modulo n of a unit g exactly when all W[i] are units, and literally exactly when they are also reduced |
| TimedCommitment.HonestForks | timed_commitment/timed_commitment.cpp:141-263 | every honest commitment with a unit h meets what the soundness theorem asks: two of its rounds from the same alpha both pass, for all challenges that differ by units |
| ZeroKnowledge.CheckedCommitmentBinds | timed_commitment/timed_commitment.cpp:202-324 | after such a check, with all W[i] units: `force_open` succeeds exactly when u is reduced; it gives the bits of every opening that the commiter can still have accepted; `force_open_smart` agrees exactly when it squares or W[K-1] has the parity of its remainder |
| ZeroKnowledge.ExtractStep | timed_commitment/timed_commitment.cpp:247-261 | one index of the extraction, for a unit W[i-1] = g^e and any W[i]: W[i] = W[i-1]^e modulo n exactly when W[i] is a unit |
| Fermat.RootUnique | timed_commitment/timed_commitment.cpp:247-261 | unit roots for an exponent that is invertible modulo phi are unique |
| ZeroKnowledge.ChainOpens | timed_commitment/timed_commitment.cpp:292-324 | with a chain modulo n, both searches succeed exactly when u is reduced, and agree exactly when the smart one squares or W[K-1] has the parity of its remainder |
| ZeroKnowledge.ForceOpenedExact | timed_commitment/timed_commitment.cpp:292-307 | for every accepted commitment with l ≤ 2^K, `force_open` succeeds exactly when u = g^(2^(2^K)), and then unmasks with g^(2^(2^K - l)) |
| ZeroKnowledge.ZeroChainPasses | timed_commitment/timed_commitment.cpp:240-263 | what fails without units: if W[1..K-1] are zero then, for any u at all, first moves fixed in advance have accepted answers to all positive challenges |
| ZeroKnowledge.ZeroChainForks | timed_commitment/timed_commitment.cpp:202-263 | such a commitment is accepted, has forked passing transcripts, and is not the chain |
| ZeroKnowledge.ZeroChainNeverOpens | timed_commitment/timed_commitment.cpp:292-324 | for u ≠ 0 `force_open_smart` always throws on it, and `force_open` does unless u is the true end of the chain |
| ZeroKnowledge.HonestIndexExact | timed_commitment/timed_commitment.cpp:177-186 | completeness at one index: for every challenge and alpha the z equation holds exactly when h is a unit or the challenge is zero, and then the w equation holds too |
| ZeroKnowledge.HonestIndexPasses | timed_commitment/timed_commitment.cpp:247-261 | for a unit g and any exponent that kills g in place of its order, both equations hold for every challenge and alpha |
| TimedCommitment.HonestVerdict | timed_commitment/timed_commitment.cpp:331-337 | an honest round is accepted exactly when h is a unit or nothing was challenged; otherwise the z check throws |
| TimedCommitment.CommitRoundTrip | timed_commitment/timed_commitment.cpp:92-139 | for every h and every m with at most 2^K bits, the honest opening and `force_open` return m, and so does `force_open_smart` when l ≤ 2^(K-1) |
| TimedCommitment.JumpAhead | timed_commitment/timed_commitment.cpp:112-114 | reducing the exponent 2^k modulo phi changes no power, for units and non-units alike |
| TimedCommitment.PowerOfTwoRemains | timed_commitment/timed_commitment.cpp:112-113 | no power of two is a multiple of phi, so no reduced exponent is zero |
| TimedCommitment.Exp | timed_commitment/timed_commitment.cpp:14-24 | the binary powering loop computes x^n |
| TimedCommitment.ComputeG | timed_commitment/timed_commitment.cpp:28-44 | the loop over the prime table raises h to the product of all primes below 128, each to the power 512 |
| Generator.TableIsExact | timed_commitment/timed_commitment.cpp:33-42 | the part of the prime table that the loop uses holds exactly the primes below 128 |
| Generator.GExponentFactors | timed_commitment/timed_commitment.cpp:39-42 | the exponent contains every prime below 128 to the power 512 and not to the next, and no other prime |
| TimedCommitment.MaskBits | timed_commitment/timed_commitment.cpp:116-120 | S[i] differs from m[i] exactly when v^(2^i) modulo n is odd (v as it is for i = 0), and u ends as v after l squarings |
| TimedCommitment.Commiter.constructor | timed_commitment/timed_commitment.h:90-95 | n = pq and phi = (p-1)(q-1) |
| TimedCommitment.Commiter.Commit | timed_commitment/timed_commitment.cpp:92-139 | no sanity check fails; the result is the commitment that plain squaring of g would give, and S[i] differs from m[i] exactly when g^(2^(2^K - l + i)) modulo n is odd |
| CommitmentSpec.HonestMask | timed_commitment/timed_commitment.cpp:114-120 | the same about the commitment as a value |
| TimedCommitment.Commiter.BuildChain | timed_commitment/timed_commitment.cpp:127-131 | W[i] = g^(2^(2^i)), although the exponents are reduced modulo phi |
| TimedCommitment.Commiter.Zk2 | timed_commitment/timed_commitment.cpp:141-163 | z and w are the alpha-th powers of g and of W[i-1]; a wrong size throws and changes nothing |
| TimedCommitment.Commiter.Zk4 | timed_commitment/timed_commitment.cpp:165-189 | throws exactly for a wrong size or a digest that does not match; otherwise answers challenge i with c 2^(2^(i-1)) + alpha modulo the order |
| TimedCommitment.RevealedAreCommitted | timed_commitment/timed_commitment.cpp:171-175 | without a hash collision, the challenges that are answered are those that were committed to |
| TimedCommitment.Commiter.Open | timed_commitment/timed_commitment.cpp:191-200 | sends h^(2^(2^K - l)) with the exponent reduced modulo phi |
| TimedCommitment.Receiver.AcceptCommitment | timed_commitment/timed_commitment.cpp:202-214 | accepts exactly when g is `get_g` of h, W has K+1 elements, W[0] is g² and W[K] is u; otherwise throws the exception of the first of these that fails |
| TimedCommitment.Receiver.Zk1 | timed_commitment/timed_commitment.cpp:216-227 | stores the challenges and returns their digests |
| TimedCommitment.Receiver.Zk3 | timed_commitment/timed_commitment.cpp:229-238 | stores the first moves and opens the challenges, or throws on a wrong size |
| TimedCommitment.Receiver.Zk5 | timed_commitment/timed_commitment.cpp:240-263 | accepts exactly when both equations hold at every index, and otherwise throws for the first index at which one fails |
| TimedCommitment.Receiver.Decode | timed_commitment/timed_commitment.cpp:266-277 | returns l bits, bit i differing from S[i] exactly when v^(2^i) modulo n is odd, and throws unless l squarings of v end in u |
| TimedCommitment.Receiver.Open | timed_commitment/timed_commitment.cpp:279-290 | opening with vp is decoding with `get_g` of vp after the u check |
| TimedCommitment.Receiver.ForceOpen | timed_commitment/timed_commitment.cpp:292-307 | opens with g squared 2^K - l times, with exactly that many squarings in the search loop |
| TimedCommitment.Receiver.ForceOpenSmart | timed_commitment/timed_commitment.cpp:309-324 | opens with W[K-1] squared 2^(K-1) - l times, with exactly that many squarings in the search loop |
| TimedCommitment.ZkRound | timed_commitment/timed_commitment.cpp:331-337 | the five steps between honest parties succeed exactly when h is a unit or nothing is challenged |
| TimedCommitment.RunCommit | timed_commitment/timed_commitment.cpp:327-339 | the whole commit protocol leaves both parties with the honest commitment, and succeeds exactly when h is a unit or no round challenges anything |
| TimedCommitment.RunRounds | timed_commitment/timed_commitment.cpp:331-337 | the loop runs until a round throws: it succeeds exactly when h is a unit or no round challenges anything |
| TimedCommitment.OpenCommitment | timed_commitment/timed_commitment.cpp:341-347 | after an honest commit the receiver reads m |
| CommitmentSpec.NoDecodeException | timed_commitment/timed_commitment.cpp:273-275 | the sanity check at the end of `decode` never fires, for any opening of any accepted commitment |
| CommitmentSpec.HonestAccepted | timed_commitment/timed_commitment.cpp:202-214 | an honest commitment passes every check of the receiver |
| CommitmentSpec.HonestForceOpens | timed_commitment/timed_commitment.cpp:292-307 | squaring from g returns m |
| CommitmentSpec.HonestSmartOpens | timed_commitment/timed_commitment.cpp:309-324 | squaring from W[K-1] returns m if l ≤ 2^(K-1) |
| CommitmentSpec.HonestOpens | timed_commitment/timed_commitment.cpp:279-290 | h^e opens to m for every exponent e with g^e equal to the key |
| CommitmentSpec.SmartSavesHalf | timed_commitment/timed_commitment.cpp:313-315 | the smart search squares exactly 2^(K-1) times less often |
| OrderSearch.FindOrder | timed_commitment/timed_commitment.cpp:63-90 | terminates; the result is phi stripped of (p1-1)/2, (p2-2)/2 and 2, each as often as g stays killed |
| OrderSearch.StripAllKeeps | timed_commitment/timed_commitment.cpp:75-87 | the result divides phi and kills g if phi does, whatever divisors are tried |
| OrderSearch.StripAllMaximal | timed_commitment/timed_commitment.cpp:75-87 | every divisor tried stays maximal through the later iterations |
| OrderSearch.MaximalStays | timed_commitment/timed_commitment.cpp:75-87 | what cannot be taken out of e cannot be taken out of a divisor of e |
| OrderExactness.IntendedOrderExact | timed_commitment/timed_commitment.cpp:61-67 | with (p2-1)/2, which a safe prime calls for, the result is the exact order of every unit |
| OrderExactness.FoundOrderExact | timed_commitment/timed_commitment.cpp:63-90 | as written, the result is the exact order of a unit g if and only if g² is not one modulo the second prime |
| Generator.FoundOrderOfSample | timed_commitment/timed_commitment.cpp:108-110 | in terms of the sampled h: for large safe primes the result is the exact order of `get_g`(h) if and only if h² is not one modulo the second prime |
| Generator.FoundOrderMisses | timed_commitment/timed_commitment.cpp:108-110 | h = n-1 can be sampled; `get_g` sends it to one, and `find_order` does not return the order of one |
| Generator.GetGIsOne | timed_commitment/timed_commitment.cpp:28-44 | for large safe primes `get_g` returns one exactly for the units h with h² = 1 |
| OrderExactness.FoundOrderFacts | timed_commitment/timed_commitment.cpp:108-110 | what `commit` and the checks rely on: the result divides phi and kills every unit g |
| OrderExactness.FoundOrderKeepsQ | timed_commitment/timed_commitment.cpp:67-67 | (p2-1)/2 always divides the result, because it is never tried |
| BitUtils.ToBits | timed_commitment/bit_utils.cpp:7-16 | position 8j + i holds the bit of weight 2^i of byte j |
| BitUtils.FromBits | timed_commitment/bit_utils.cpp:18-34 | rebuilds the bytes, or throws when the number of bits is no multiple of 8 |
| BitUtils.BytesRoundTrip | timed_commitment/bit_utils.cpp:7-34 | `from_bits` inverts `to_bits` |
| BitUtils.BitsRoundTrip | timed_commitment/bit_utils.cpp:7-34 | `to_bits` inverts `from_bits` on whole bytes |
| BitUtils.IntegerToBits | timed_commitment/bit_utils.cpp:40-49 | encodes every non-negative integer and throws for negative ones |
| BitUtils.BitsToInteger | timed_commitment/bit_utils.cpp:56-59 | decodes whole bytes and throws otherwise |
| BitUtils.IntegerRoundTrip | timed_commitment/bit_utils.cpp:40-59 | `bits_to_integer` inverts `integer_to_bits` |
| BitUtils.IntegerBitsFit | timed_commitment/bit_utils.cpp:40-49 | at most 256 bits are used exactly by integers below 256^32 |
| JointSigning.JointRunIsPlain | shared_signature/shared_sig.cpp:184-190 | for all halves, hashes, masks and Paillier randomness: two-party signing returns the signature, or throws the exception, of one signer with d = ds·db and k = ks·kb, if the Paillier randomness consists of units; otherwise it throws |
| JointSigning.JointSignature | shared_signature/shared_sig.cpp:113-116 | the s that `finish_sig` computes from `cont_sig`'s ciphertext is k^-1 (h + r d) modulo n |
| JointSigning.JointIsPlain | shared_signature/shared_sig.cpp:115-116 | dividing the sum under the encryption by ks gives the one-signer s |
| JointSigning.CombinedPlain | shared_signature/shared_sig.cpp:164-169 | the product of the three ciphertexts decrypts to kb^-1 h + t ds + u n, mask included, without any reduction, and is no ciphertext if a sampled value is no unit |
| JointSigning.NoWrapAround | shared_signature/shared_sig.cpp:164-169 | every plaintext and the final sum stay below N |
| JointSigning.KeysLongEnough | shared_signature/shared_sig.cpp:82-95 | Paillier primes of 2·bits(n)+3 bits give N > 2n^4, so neither constructor complains |
| JointSigning.JudgementIsPlain | shared_signature/shared_sig.cpp:113-130 | the zero test, the low-s flip and the self-check decide as the reference signer does |
| SharedSignature.Init | shared_signature/shared_sig.cpp:172-182 | both parties end with Q = (ds·db)G and never see a mismatch |
| SharedSignature.Exec | shared_signature/shared_sig.cpp:184-190 | the two objects together produce exactly the reference signature, or its exception, when the Paillier randomness consists of units, and throw otherwise |
| SharedSignature.Open | shared_signature/shared_sig.cpp:192-198 | records whether (r, s) verifies under B's own Q |
| SharedSignature.S.StartInit | shared_signature/shared_sig.cpp:97-100 | stores ds and computes Qs = ds G |
| SharedSignature.S.FinishInit | shared_signature/shared_sig.cpp:102-105 | Q = ds Qb |
| SharedSignature.S.StartSig | shared_signature/shared_sig.cpp:107-111 | stores ks, computes Ks = ks G and encrypts ds |
| SharedSignature.S.FinishSig | shared_signature/shared_sig.cpp:113-130 | decrypts, divides by ks, keeps the smaller of s and n - s, and throws for zero, for empty data or when its own signature does not verify |
| SharedSignature.B.Create | shared_signature/shared_sig.cpp:136-145 | refuses a Paillier modulus that is not above 2n^4 |
| SharedSignature.B.StartInit | shared_signature/shared_sig.cpp:147-150 | stores db and computes Qb = db G |
| SharedSignature.B.FinishInit | shared_signature/shared_sig.cpp:152-155 | Q = db Qs |
| SharedSignature.B.ContSig | shared_signature/shared_sig.cpp:157-170 | r is the x-coordinate of kb Ks modulo n, and cb the combined ciphertext; throws when r is zero, on a digest of the wrong length and on a plaintext out of range |
| Ecdsa.VerifyDecides | shared_signature/shared_sig.cpp:34-67 | for s = ±s0 with s0 k = e + r d, `verify` accepts (r, s) exactly when the x-coordinate of kG is r itself, and the standard's verification exactly when it is r modulo n |
| Ecdsa.HashIsLeftmost | shared_signature/shared_sig.cpp:19-25 | the integer of a digest with b bytes is the integer of all 32 bytes divided by 256^(32-b) |
| Ecdsa.HashInjective | shared_signature/shared_sig.cpp:19-25 | when all 32 bytes are used, different digests give different integers |
| Ecdsa.VerifiesForBoth | shared_signature/shared_sig.cpp:34-67 | where x-coordinates determine points up to sign, a signature of one digest verifies for another exactly when their integers agree modulo n, or z + z' + 2 r d is zero modulo n |
| Ecdsa.VerifyAdmits | shared_signature/shared_sig.cpp:41-56 | `verify` accepts only r and s in [1, n-1] and a Q other than O with nQ = O, and throws exactly for a digest of another length |
| Ecdsa.RefusedExactly | shared_signature/shared_sig.cpp:57-65 | a correct signature always passes the standard's verification, and `verify` exactly when the x-coordinate of kG is below n |
| Assumptions.RefusalHappens | shared_signature/shared_sig.cpp:60-65 | in a lawful group of order 7, correct signatures with nonce 2 pass the standard's verification, are refused by `verify`, and make signing throw |
| Ecdsa.PlainSignVerifies | shared_signature/shared_sig.cpp:34-67 | every signature of the reference signer verifies, with 0 < s ≤ (n-1)/2 |
| Ecdsa.LowSFacts | shared_signature/shared_sig.cpp:120-122 | the flip yields a positive s of at most (n-1)/2 that is s or -s |
| Paillier.DecInvertsEnc | shared_signature/paillier.cpp:56-87 | decryption returns m exactly when the sampled r is a unit, for every m in range |
| Paillier.EncInjective | shared_signature/paillier.cpp:56-68 | different plaintexts or different units r give different ciphertexts |
| Paillier.EncRange | shared_signature/paillier.cpp:62-64 | encryption throws exactly for plaintexts outside [0, n) |
| Paillier.DecValue | shared_signature/paillier.cpp:70-87 | `dec` returns the plaintext on the units of [1, n²), and throws one exception outside that range and another for non-units |
| Paillier.PlainMul | shared_signature/paillier.cpp:56-87 | the product of two ciphertexts decrypts to the sum of the plaintexts modulo n |
| Paillier.PlainPow | shared_signature/paillier.cpp:56-87 | the t-th power of a ciphertext decrypts to t times the plaintext modulo n |
| Paillier.PlainEnc | shared_signature/paillier.cpp:56-68 | encryption in range never throws, and yields a ciphertext of m exactly for unit r |
| Paillier.LogExact | shared_signature/paillier.cpp:31-33 | the division in `L` is exact for every unit |
| Paillier.KeyGenSound | shared_signature/paillier.cpp:11-21 | two different primes in [2^bits, 2^(bits+1)] with bits ≥ 2 always have gcd(phi, n) = 1, so u exists |
| Paillier.PublicKeyAgrees | shared_signature/paillier.cpp:23-29 | the key made from n and g encrypts as the private one does, and cannot decrypt |
| SquareRoots.AllRootsComplete | common/square_root.cpp:38-51 | for every square a: four sorted roots in [0, n] with s[0]+s[3] = n = s[1]+s[2] and s[1] below half of n, and every root in [0, n) is among them |
| SquareRoots.AllRootsDistinct | common/square_root.cpp:38-51 | the four are different exactly when a is a unit |
| SquareRoots.NoRoots | common/square_root.cpp:30-33 | for anything but a reduced square all four entries are -1, whatever the library's root function returns |
| SquareRoots.CrtCongruences | common/square_root.cpp:30-30 | the library's combination formula meets both congruences when u is the inverse of p |
| SquareRoots.Sort4Sorts | common/square_root.cpp:49-49 | the sorting is ordered and keeps every value as often as it occurred |
| SquareRoots.SquareRoot.ComputeRoot | common/square_root.cpp:11-34 | combines the signed residues and returns -1 unless the square is a; throws on a sign other than ±1 |
| SquareRoots.SquareRoot.AllSquareRoots | common/square_root.cpp:38-51 | calls it for all four sign pairs and sorts |
| Factoring.SplitExact | main/sell_information.cpp:269-271 | for r1² = r2² modulo n, the product test holds exactly for units, and the gcds are p and q in some order exactly when r1 is neither r2 nor -r2 |
| Factoring.SplitsExactly | main/sell_information.cpp:269-275 | for any two numbers the product test holds exactly when they are unit roots of one square; the split is then p and q if they are neither equal nor opposite, and n and 1 if they are |
| Factoring.OfferedRootsSplit | main/sell_information.cpp:269-275 | the two roots that the seller offers pass the test exactly when a is a unit, in either order, and then give p and q |
| Factoring.OwnRootIsOffered | main/sell_information.cpp:72-77 | a buyer's x below n/2 is one of the two smaller roots of its square |
| Factoring.EqualRootsSplitTrivially | main/sell_information.cpp:271-271 | the product test alone does not exclude the split (n, 1) |
| SellInformation.GenKeys | main/signature_key.cpp:16-30 | ten keys, key i being the hash of the signature followed by one byte that is i |
| SellInformation.KeysDiffer | main/signature_key.cpp:16-30 | if the hash has no collision on these inputs, keys of different indices differ |
| SellInformation.UnchosenKeysHidden | main/sell_information.cpp:389-409 | after the chosen keys are opened, the key of an index that was not chosen is not among those the buyer holds |
| SellInformation.Seller.constructor | main/sell_information.h:45-49 | n = pq, with the root finder for the same primes |
| SellInformation.Seller.AcceptSquares | main/sell_information.h:59-61 | stores the squares |
| SellInformation.Seller.FindRoots | main/sell_information.cpp:23-38 | keeps the two smallest of the four roots of each square, exchanged exactly when the coin says so |
| SellInformation.Seller.EncryptRoots | main/sell_information.cpp:40-45 | encrypts both roots of each index under that index's key |
| SellInformation.Seller.SetupCommit | main/sell_information.cpp:47-52 | the ciphertexts become the committed messages |
| SellInformation.Seller.AcceptSubset | main/sell_information.cpp:54-80 | for arbitrary values: answers 2 exactly for r2, 1 exactly for r1 alone and 5 for other roots below n/2; throws for the first value that is at least n/2 or no root of y, naming which |
| SellInformation.HonestSellerJudges | main/sell_information.cpp:54-80 | for any y and any value, against an honest seller: non-negative roots below n/2 are answered with 1 or 2 and the ciphertext named decrypts to the value; negative roots are answered with 5; everything else throws |
| SellInformation.OnlyRevealedOpened | main/sell_information.cpp:387-409 | in the seller's state for arbitrary squares: it opens a ciphertext exactly for non-negative roots below n/2, and only one that contains the value revealed |
| SellInformation.AnswerSquares | main/sell_information.cpp:355-369 | for arbitrary squares the seller reaches that state |
| SellInformation.NonSquareOffer | main/sell_information.cpp:31-36 | for a y that is no square the seller offers -1 twice; every value then throws, and both ciphertexts together split n trivially |
| SellInformation.Buyer.GenSquares | main/sell_information.h:131-136 | y[i] = x[i]² mod n |
| SellInformation.Buyer.PickSubset | main/sell_information.cpp:127-132 | keeps the first half of the shuffled indices |
| SellInformation.ShuffleIsGood | main/sell_information.cpp:127-132 | half of any shuffle of the indices passes the checks on size and values |
| SellInformation.Buyer.GetSubsetValues | main/sell_information.cpp:140-146 | the chosen x in the order of the indices |
| SellInformation.Buyer.VerifyRoot | main/sell_information.cpp:148-154 | succeeds exactly when the ciphertext decrypts to the buyer's x |
| SellInformation.Buyer.Factorise | main/sell_information.cpp:253-278 | stores the split of the first index with both ciphertexts that passes the product test, and throws without touching p and q if there is none |
| SellInformation.HonestReveal | main/sell_information.cpp:54-80 | against an honest seller, x below n/2 is always answered with 1 or 2 and the ciphertext named decrypts to x; x ≥ n/2 is refused |
| SellInformation.HonestTry | main/sell_information.cpp:261-275 | both ciphertexts of an honest index give p and q exactly when x is a unit |
| SellInformation.HonestFactorise | main/sell_information.cpp:253-278 | the search skips the chosen indices and those whose x is no unit, and fails only if no index remains |
| SellInformation.FirstUsableDecides | main/sell_information.cpp:253-278 | against arbitrary ciphertexts: `factorise` throws exactly when no index holds two ciphertexts of unit roots of one square, and ends with p and q exactly when the roots at the first such index are neither equal nor opposite |
| SellInformation.FirstUsable | main/sell_information.cpp:257-276 | the first index from i on with both ciphertexts, of unit roots of one square |
| SellInformation.HonestIndexUsable | main/sell_information.cpp:253-278 | one honest index that was not chosen, with a unit x, is such an index, so `factorise` never throws |
| SellInformation.EqualRootsStopFactorise | main/sell_information.cpp:257-275 | a seller who encrypts one unit twice at the first index with both ciphertexts makes `factorise` end with (n, 1) |
| SellInformation.OpenOne | main/sell_information.cpp:390-408 | opens the key and the one ciphertext that the answer names, and verifies it |
| SellInformation.OpenChosen | main/sell_information.cpp:389-409 | after the loop the buyer holds the key and exactly one ciphertext at each chosen index, and neither a new key nor a ciphertext elsewhere; only x ≥ n/2 stops it |
| SellInformation.OpenRest | main/sell_information.cpp:411-416 | afterwards both ciphertexts are held outside the chosen set, still exactly one inside it |
| SellInformation.OpenAll | main/sell_information.cpp:355-416 | from the squares to the end of the openings: repeated indices throw for the size, other bad ones for the value; otherwise only a chosen x ≥ n/2 stops it; and when the buyer can factor afterwards |
| SellInformation.Exchange | main/sell_information.cpp:355-424 | the honest exchange succeeds exactly when every chosen x is below n/2 and some other x is a unit, and then the buyer holds p and q |
| SignatureKey.SignatureRoundTrip | shared_signature/shared_sig.cpp:69-77 | r and s can be read back from the 64 encoded bytes, so the published signature yields the same keys |
| SignatureKey.VerifyKeys | main/signature_key.cpp:78-86 | accepts exactly when every opened key is a prefix of the key derived from the signature |
| SignatureKey.KeyRecovery | main/sell_information.cpp:168-178 | the bits of ds under an honest time lock convert back to ds, and ds·db reduced modulo n is the private key of Q |
| SignatureKey.SolveTimeLock | main/sell_information.cpp:168-178 | forces the lock open, converts, multiplies and reduces, passing on either exception |
| SignatureKey.BuyerGetsOut | main/sell_information.cpp:168-185 | after an honest run the buyer always recovers a key d with dG = Q |
| SignatureKey.SingleExec | main/signature_key.cpp:113-164 | the parties' objects end with exactly the outcome that `Outcome` gives: the signature, the honest time lock on ds and the keys of that signature, or the same exception |
| SignatureKey.OutcomeExact | main/signature_key.cpp:113-164 | an instance succeeds exactly when the Paillier randomness consists of units, the one-signer signature exists, and h is a unit or nothing is challenged; its signature is then the one-signer one, has a low s and verifies |
| SignatureKey.SingleOpen | main/signature_key.cpp:166-189 | from any state: reports the verdict on the signature, and throws exactly for a digest of the wrong length, a lock that does not open or keys that do not match, in this order |
| SignatureKey.OpeningReports | main/signature_key.cpp:166-189 | a good report means that (r, s) is valid under Q, the lock opened and the keys match, and conversely |
| SignatureKey.DealOpens | main/signature_key.cpp:166-189 | every executed instance opens, verifies and has matching keys |
| Acceptance.AcceptedSellable | main/signature_key.cpp:166-189 | an accepted opening of any instance: (r, s) is valid under Q; and the buyer's keys are those of (r, s) and the time lock yields the private key of Q exactly when the opened signature is (r, s), the opened keys are whole, and the smart search yields whole bytes whose integer times G is Qs |
| Acceptance.OpenedBitsDecide | main/signature_key.cpp:176-186 | with the chain that the zero-knowledge check proves and W[K-1] reduced, the same holds with the bits that `open_commitment` returns and `open` drops |
| Acceptance.OtherMessagesAccepted | main/signature_key.cpp:166-189 | `open` accepts an honest instance's signature with a lock on any other bits, any other committed signature and any prefixes of its keys |
| Acceptance.EmptyLockAccepted | main/signature_key.cpp:176-176 | an input that fails: a lock on no bits is accepted with genuine signature and keys, and yields a key that is not that of Q |
| Acceptance.EmptyKeysAccepted | main/signature_key.cpp:78-86 | another: empty keys are accepted for every committed signature |
| Acceptance.LockWorksExactly | main/sell_information.cpp:168-185 | a lock on any bits that fit yields the private key of Q exactly when they are whole bytes that encode ds modulo n |
| Acceptance.RecoveredExactly | main/sell_information.cpp:168-185 | for any commitment: the recovered key is that of Q exactly when the smart search yields whole bytes whose integer times G is Qs |
| Acceptance.KeysGenuine | main/signature_key.cpp:78-86 | for a hash that separates the two inputs, checked keys are those of a given signature exactly when they are whole and were checked against that signature |
| Acceptance.MirroredSignature | main/sell_information.cpp:253-256 | for every signature (r, s) of the reference signer, (r, n-s) verifies too and is encoded differently |
| Acceptance.MirroredKeysDiffer | main/sell_information.cpp:253-263 | if (r, n-s) is published, `factorise` derives other keys than the seller at every index |
| CutAndChoose.CutAndChoose | cut_and_choose/cut_and_choose.h:31-53 | for any protocol, the result is true exactly when every instance runs and every instance but the chosen one opens well; the chosen one is never opened, and nothing after the first bad opening is |
| Trade.GenerationExact | main/sell_information.cpp:327-335 | cut and choose over honest instances of the inner protocol runs through exactly when every instance succeeds, and all but the chosen one open well |
| Trade.OpensWellExactly | cut_and_choose/cut_and_choose.h:44-51 | cut and choose passes an executed instance exactly when its signature is valid under Q, its lock opens and its keys match |
| Trade.GenerateKeys | main/sell_information.cpp:302-353 | key generation returns the outcome of the chosen instance, exactly when all instances succeed |
| Trade.Redeem | main/sell_information.cpp:168-185 | forces the time lock of the chosen instance open and returns the recovered key |
| Trade.OutcomeSellable | main/sell_information.cpp:168-185 | every executed instance has keys made from its signature and a time lock that yields the private key of Q |
| Trade.Settle | main/sell_information.cpp:355-424 | the openings and what follows the payment, with the published signature or with the time lock |
| Trade.Trade | main/sell_information.cpp:302-425 | the whole program between honest parties: it ends well exactly when all instances succeed, every chosen x is below n/2 and, if the signature is published, some other x is a unit; the buyer then holds p and q, or else the private key of Q |
| Trade.Begin | main/sell_information.h:45-49 | seller and buyer as constructed meet what the trade asks of them |

## Left out

- TimedCommitment.Commiter.Commit: requires K ≥ 1 and l ≤ 2^K; for other values the program reads W[1] out of bounds or raises to a negative exponent.
- TimedCommitment.Receiver.Decode: requires |S| ≥ l, since the program reads S[0..l) without a check; a shorter S is undefined behaviour there.
- TimedCommitment.Receiver.AcceptCommitment: the numbers of a commitment are non-negative, so negative Integers sent by a peer are not modelled.
- TimedCommitment.ComputeG: the library's prime table is cut after the first prime above 127, and the check for a short table, which cannot fire, is dropped.
- SignatureKey.VerifyKeys: an opened key longer than a digest is compared beyond the digest's end in the program; here it is refused.
- Trade.Trade: both parties are honest and the instances are values; `SingleExec` and `SingleOpen` are the same steps on the parties' objects. The copies that the program makes of one pair of objects share the Paillier key and the commiter's primes, as `Setting` does.
- SharedSignature.S.constructor: the program only prints a warning for a short Paillier modulus, which `KeysLongEnough` shows to be impossible.
- SellInformation.OpenOne: opening a hash commitment hands over the message; seeds and digests of the opened ciphertexts and keys are not modelled.
- C++ arrays and vectors have value semantics, so they are `seq` fields that methods reassign; no aliasing is lost.
- The ECDSA curve is an abstract group of odd prime order with x(P) = x(-P); point arithmetic of secp256k1 is not part of this model.
- SHA-256 is a function parameter, AES a pair of functions with dec(k, enc(k, m)) = m and non-empty ciphertexts, and the library's ModularSquareRoot a function that returns a root in [0, p) when there is one.
- Prime generation (`gen_prime`, Paillier's sampling) is a precondition: different primes of the stated form and size.
- The not-initialised guards of a default-constructed Paillier object, and the AES key-length checks.
- All Bitcoin calls, transactions and their scripts, Thrift, Java code, logging and flags for cheating.
- The race of two threads in `wait_for_signature_or_time_lock`: a parameter of `Trade` decides whether the signature is published in time.
- Probabilities: hiding, zero knowledge, and how likely non-units or equal challenges are.
- `string_to_bits` and `bits_to_string`, which are the same codec on strings, and `m_to_int`, which nothing calls.
