# A verified model of the age-credential cryptography

The repository issues signed age credentials, proves statements about them in
zero knowledge and verifies the proofs. This project models that logic in
Dafny and proves what it promises. Lines are cited as path:line of the
repository.

What the results add up to:

* **The age circuit decides its statement.** The circuit is the list of rank-1
  constraints over a prime field that `synthesize` emits. `AgeStatement.CircuitSound`:
  *any* field values that satisfy all constraints, with the eight public inputs
  the host assembles, carry a credential whose commitment opens to a date of
  birth on the right side of the cutoff, under the public key and nullifier, with
  a signature accepted on the hash of the host's own transcript.
  `AgeCompleteness.CircuitComplete`: the values the run itself computes satisfy
  the constraints exactly when the statement holds. `AgeCompleteness.CircuitRelation`
  puts both together as an if-and-only-if. The comparator, multiplexer, equality,
  disjunction and packing gadgets each have their own two-way theorem, for vectors
  of every length and over every sufficiently large prime field.
* **The signature gadget is the equation on the curve.** From the constraints of
  `sapling_ecc.rs` and `redjubjub.rs`, `CurveGadget.GadgetCorrect` shows that the gadget
  decides exactly s * G == R + e * VK on points that are on the curve and not of small
  order: for any satisfying values, and for the values of the run. `EdwardsLaw.Denominators`
  is why no division can fail. `CurveCircuit.CurveCircuitDecides` puts the gadget into the circuit.
* **Issuer, host and circuit fit together.** `Issuance.VerifiersAgree` says exactly
  what the host's verifier demands beyond the circuit: a scalar with 0 < s < order and a
  key in the prime-order subgroup. `Issuance.OtherScalar` and `Issuance.MixedOrderKey`
  are inputs on which they differ, for every scheme; `Issuance.VerdictsOnParts` gives both verdicts at any key and R. `Issuance.IssuedCredentialProves` follows a credential
  from the issuer's signing key to a satisfied circuit; `CurveCircuit.WitnessVerifies` leads
  back from a witness of the circuit's statement to `verify_cred_v2`.
* **A commitment has one opening.** The Pedersen hash is modelled down to its chunks:
  `PedersenHash.OneOpening` and `PedersenHash.DateDetermined`.
* **The Pedersen gadget computes the specified point.** Its table lookups, its incomplete addition of Montgomery points
  and the way back to the Edwards curve are proved against the group of the curve (`Lookup.LookupSound`,
  `MontgomeryLaw.MontgomerySum`). With the regularity of the chunks any satisfying values end in the point that
  section 5.4.1.7 of the Zcash Protocol Specification defines by the bits of the input (`PedersenGadget.HashSound`), and
  behind the encoding of a point in the library's hash (`PedersenGadget.OutputSound`).
* **Encodings** built on both sides are the same bits and parse back uniquely, and what is hashed for one purpose is
  never what is hashed for another (`Domains.HashInputsApart`).
* **Calendar, group tables, the curve map and the signature scheme** meet simple
  independent definitions.

## How it is modelled

`R1cs.ConstraintSystem` is a class with the constraints, the inputs and the
variables' optional values as fields; gadgets are methods that append to it, and
each is proved against functions giving the appended constraints and values.
Those constraint functions do not take the values as arguments, so that the
constraints do not depend on the witness is part of every gadget's contract.
Soundness lemmas speak of any assignment; completeness lemmas of any assignment
that agrees with the values computed.

* A bit is a constant, a variable or a negated variable. Its value is read from
  the constraint system; bellman keeps a copy in the bit. The semantics of bellman's
  allocated bits, of its `Boolean::and`, of `multipack` and of the table lookup with conditional negation are modelled.
* The field is the integers modulo a parameter p, prime and above 2^254 where
  packing matters, above 3 for the comparator. Coefficients are integers standing
  for their residues. Euclid's lemma is proved from the definition of a prime.
* The circuit's theorems take the Pedersen, Blake2s and signature gadgets as parameters with
  soundness and completeness hypotheses (`Gadgets.HashCorrect`, `Gadgets.SigCorrect`);
  `Consistency.SettingHolds` shows that they can be met for all hash functions and every
  signature relation. For the signature gadget the hypothesis is proved from its constraints,
  given the gadget that encodes a point (`repr`), the hash of the challenge and the group of the
  curve. Hash functions are arbitrary functions: nothing is claimed about collisions, only
  about what is hashed.
* The curve's points are the elements of a commutative group whose coordinates are the points of
  -u^2 + v^2 = 1 + d u^2 v^2 and whose sums satisfy the addition law (`EdwardsLaw.Coordinates`).
  That the law is associative, that -1 is a square and d is not, and that there are eight times
  as many points as the subgroup has, are facts about the curve taken as hypotheses. `SmallCurve.SmallKitReady`
  shows that they can hold together with all that is asked of the scheme and the gadgets, on a curve of 24 points
  over the integers modulo 17. That a curve over a prime above 2^254 meets them too, as the whole circuit asks
  (`CurveCircuit.CurveKit`), is not shown.
* Strings are byte strings. Integer widths are subset types of int, checked at
  every assignment.

## Where code and documentation differ

The model follows the code.

* `crypto-circuit-age/src/gadgets/sapling_constants.rs:86` describes nine entries per
  window, 0 to 8 times the base; the code stores eight, 0 to 7 (`FixedBase.GenerateCircuitGenerator`).
* `crypto-circuit-age/src/gadgets/sapling_constants.rs:80-81` lists signed entries; only the four
  positive ones are stored. The comment before the doublings says two, the code makes four
  (`FixedBase.GeneratePedersenWindows`).
* The header of `crypto-circuit-age/src/lib.rs` (lines 5-16) names one direction of the age bound and
  no direction input; the code packs the direction first and has both.
* `README.md:67` generates 192 bits of commitment randomness. The host accepts 128 to
  1096 bits, the circuit exactly 128 (`AgeCircuit.Synthesize` against
  `Commit.PedersenCommitDobValidated`); the circuit does not ask for diverse bytes.
* `crypto-protocol/src/nonce.rs:42-44` asks for a nonce that is not zero *and* of sufficient
  diversity; the first follows from the second (`Randomness.ValidateNonce`).
* `crypto-circuit-age/src/lib.rs:96-145` refuses an all-zero commitment or signature;
  `synthesize` does not.
* The host demands 0 < s < order of a signature's scalar and a key and R in the prime-order
  subgroup (`crypto-sig-redjubjub/src/lib.rs:197-258`). The circuit constrains the bits of s but not
  their range (`crypto-circuit-age/src/gadgets/redjubjub.rs:152-157`), and takes every curve point
  that three doublings do not bring to the neutral one
  (`crypto-circuit-age/src/gadgets/sapling_ecc.rs:76-91`). The statement proved for the circuit says
  only what its constraints force, and `Issuance.VerifiersAgree` gives the exact difference. Signing
  does not check that s is nonzero, so in that one case the host refuses its own signature
  (`RedJubjub.SignThenVerify`).
* `crypto-commit/src/lib.rs:47-79` accepts 128 to 1096 random bits, and zeros appended up to the next multiple of
  three bits do not change the commitment (`PedersenHash.ZerosVanish`); the circuit accepts 128 bits only.

## Model

| member | source | states |
|---|---|---|
| R1cs.BoolConMeaning | crypto-circuit-age/src/gadgets/bits.rs:9-44 | the constraint of an allocated bit holds, over any prime field, if and only if the variable is 0 or 1 |
| R1cs.BitsMeaning | crypto-circuit-age/src/gadgets/bits.rs:9-150 | an assignment satisfies the allocation constraints if and only if it has only 0 and 1 on the allocated bits |
| R1cs.BitsComplete | crypto-circuit-age/src/gadgets/bits.rs:9-150 | the allocated values satisfy those constraints and are the bits given, in order |
| BitAlloc.AllocU32Input | crypto-circuit-age/src/gadgets/bits.rs:47-59 | 32 fresh bits, least significant first, hold the word; nothing earlier changes |
| BitAlloc.AllocU32Witness | crypto-circuit-age/src/gadgets/bits.rs:62-74 | the same variables and constraints whether or not there is a value, and its bits if there is |
| BitAlloc.AllocU64Witness | crypto-circuit-age/src/gadgets/bits.rs:77-90 | the 64 bits are those of the big-endian bytes of the number, as in the host's transcript |
| BitAlloc.AllocBytesInput | crypto-circuit-age/src/gadgets/bits.rs:114-128 | eight fresh bits a byte, least significant first |
| BitAlloc.AllocBytesWitnessFixed | crypto-circuit-age/src/gadgets/bits.rs:9-44 | refuses exactly the byte strings of another length, leaving the system as it was; otherwise the same shape with or without a value |
| BitAlloc.AllocBoolVecWitnessFixed | crypto-circuit-age/src/gadgets/bits.rs:131-150 | likewise for a bit vector |
| BitGadgets.ConditionalSwap | crypto-circuit-age/src/gadgets/bits.rs:162-222 | refuses exactly unequal lengths; otherwise appends the constraints and values the next two rows are about |
| BitGadgets.SwapMeaning | crypto-circuit-age/src/gadgets/bits.rs:162-222 | at every length, an assignment with bit inputs satisfies the swap's constraints if and only if (left, right) are bits and equal (a, b) under direction 1 and (b, a) under direction 0 |
| BitGadgets.SwapComplete | crypto-circuit-age/src/gadgets/bits.rs:162-222 | the values the method computes for left and right are the selected vectors |
| BitGadgets.EnforceBitsEqual | crypto-circuit-age/src/gadgets/bits.rs:225-247 | refuses exactly unequal lengths, allocates nothing, appends the constraints of the next row |
| BitGadgets.EqualMeaning | crypto-circuit-age/src/gadgets/bits.rs:225-247 | the equality constraints hold if and only if the vectors carry the same bits |
| BitGadgets.BooleanOr | crypto-circuit-age/src/gadgets/bits.rs:250-263 | the result bit and exactly what is appended, for every mix of constants, variables and negations |
| BitGadgets.AndMeaning | crypto-circuit-age/src/gadgets/bits.rs:250-263 | the conjunction bit is forced to be the conjunction, in all nine combinations of constant, variable and negated operands |
| BitGadgets.OrMeaning | crypto-circuit-age/src/gadgets/bits.rs:250-263 | the constraints hold if and only if the result is a bit and the disjunction of the operands |
| BitGadgets.OrComplete | crypto-circuit-age/src/gadgets/bits.rs:250-263 | the computed values satisfy the constraints and read as the disjunction |
| Comparator.EnforceGe | crypto-circuit-age/src/gadgets/bits.rs:266-393 | refuses exactly unequal lengths; the borrow loop appends, position by position, the constraints and values of the rows below |
| ComparatorProofs.StepMeaning | crypto-circuit-age/src/gadgets/bits.rs:342-386 | over any prime above 3 a borrow step's constraints hold if and only if both new variables are bits and a - b - borrow = diff - 2 next over the integers, not only modulo p |
| ComparatorProofs.GeBodySound | crypto-circuit-age/src/gadgets/bits.rs:280-390 | for any satisfying values, honest or not, the final borrow is 1 exactly when value(a) < value(b) |
| ComparatorProofs.GeSound | crypto-circuit-age/src/gadgets/bits.rs:266-393 | at every length and over every prime field with p > 3, any values satisfying all constraints imply value(a) >= value(b) as integers |
| ComparatorProofs.GeComplete | crypto-circuit-age/src/gadgets/bits.rs:266-393 | the computed values satisfy every constraint but the last whatever a and b are, and the last exactly when value(a) >= value(b) |
| ComparatorProofs.GeCount | crypto-circuit-age/src/gadgets/bits.rs:266-393 | for n >= 2 bits with allocated top bits: 3(n-1)+6 constraints and 2(n-1)+5 variables, whatever the values |
| Constants.BiasMeaning | crypto-commons/src/constants.rs:61-73 | flipping the sign bit of the two's complement word adds 2^31 |
| Constants.BiasIsOrderIsomorphism | crypto-commons/src/constants.rs:61-80 | signed order becomes unsigned order, and the two conversions are inverse to each other in both directions |
| Multipack.ComputeMultipacking | crypto-public-inputs/src/lib.rs:94-139 | the doubling accumulator gives, for every 254-bit chunk, the integer of its bits; no sum wraps around p |
| Multipack.PackIntoInputs | crypto-circuit-age/src/lib.rs:287-291 | one input and one constraint a chunk, the input's value the packed bits where all are known |
| Multipack.PackMeaning | crypto-circuit-age/src/lib.rs:287-291 | the packing constraints hold if and only if the inputs are the packed values of the bits |
| Multipack.PackUnique | crypto-circuit-age/src/lib.rs:235-291 | bits satisfying the packing constraints are determined by the inputs, at every length |
| PublicInputs.BitsLeFromBytes | crypto-public-inputs/src/lib.rs:26-38 | the nested loops give the bits of the bytes, least significant first |
| PublicInputs.AssemblePublicInputsManual | crypto-public-inputs/src/lib.rs:94-139 | never fails and returns the vector the next two rows describe |
| PublicInputs.AssemblePublicInputsCanonical | crypto-public-inputs/src/lib.rs:54-69 | the alias returns the same vector |
| PublicInputs.ElementsLayout | crypto-public-inputs/src/lib.rs:40-139 | exactly eight field elements: direction, biased cutoff, then two each for hash, key and nullifier, all below 2^254 |
| PublicInputs.ElementsInjective | crypto-public-inputs/src/lib.rs:40-139 | equal vectors come from equal arguments |
| Transcript.CredV2PrehashBytes | crypto-commons/src/lib.rs:258-296 | succeeds exactly when key id and schema have at most 255 bytes, with the encoding that the next rows show decodable |
| Transcript.DecodeEncode | crypto-commons/src/lib.rs:266-295 | a parser recovers all six fields and whatever follows |
| Transcript.EncodeDecode | crypto-commons/src/lib.rs:266-295 | whatever parses is the encoding of the message parsed: the format has no second spelling |
| Transcript.PrefixFree | crypto-commons/src/lib.rs:266-295 | no encoding is a proper prefix of another, and equal encodings have equal fields |
| Transcript.BuildPrehashBits | crypto-circuit-age/src/gadgets/prehash.rs:14-83 | refuses exactly the wrong sizes and fields over 255 bytes; otherwise the bits of the next row |
| Transcript.TranscriptsAgree | crypto-circuit-age/src/gadgets/prehash.rs:14-83 | under any assignment the circuit's transcript bits are those of the host's encoding of the fields carried, and both sides refuse the same lengths |
| Randomness.CountDistinct | crypto-protocol/src/nonce.rs:54-73 | the table-and-counter loop returns the size of the set of byte values |
| Randomness.ValidateNonce | crypto-protocol/src/nonce.rs:42-73 | accepts if and only if at least 8 byte values occur; being nonzero adds nothing |
| Randomness.GenerateCommitmentRandomness | crypto-commit/src/lib.rs:144-160 | exactly the first numBits bits of the random buffer |
| Randomness.RepackRandomness | crypto-commit/src/lib.rs:144-214 | packing those bits into bytes again gives the buffer, its last byte cut to the bits used |
| Randomness.ValidateCommitmentRandomness | crypto-commit/src/lib.rs:172-214 | accepts if and only if there are at least 32 bits and the set of packed byte values has at least 8 members |
| Commit.PedersenCommitDobValidated | crypto-commit/src/lib.rs:47-79 | commits exactly on 128 to 1096 sufficiently diverse random bits, to the bits of the biased date followed by the randomness |
| Commit.PedersenNullifier | crypto-commit/src/lib.rs:103-129 | hashes the bits of the domain tag and of the commitment |
| Commit.CommitBitsMeaning | crypto-commit/src/lib.rs:57-75 | the hash input of a commitment is the number dobDays + 2^31 in 32 bits, least significant first, and then the randomness |
| Commit.NullifierBitsMeaning | crypto-commit/src/lib.rs:103-129 | the hash input of a nullifier is the bits of 28 tag bytes and of the commitment's bytes |
| Commit.CommitBitsInjective | crypto-commit/src/lib.rs:57-75 | distinct dates or randomness reach the hash as distinct inputs |
| AgeStatement.NullifierInputsAgree | crypto-circuit-age/src/gadgets/pedersen.rs:10-44 | the circuit's Pedersen input for the nullifier is the host's, bit for bit |
| AgeStatement.CommitInputsAgree | crypto-circuit-age/src/gadgets/pedersen.rs:47-68 | the circuit's Pedersen input for the commitment is the host's for the unbiased date and the same randomness |
| AgeCircuit.NewWitness | crypto-circuit-age/src/lib.rs:96-145 | succeeds exactly on well-sized fields with a commitment and a signature that are not all zero |
| AgeCircuit.AllocPublic | crypto-circuit-age/src/lib.rs:231-291 | the inputs appended are the host's eight elements, whatever the arguments |
| AgeCircuit.AllocWitness | crypto-circuit-age/src/lib.rs:293-391 | refuses exactly wrongly sized or unparsable witnesses; a set-up run gets the same variables and constraints |
| AgeCircuit.EnforceBinding | crypto-circuit-age/src/lib.rs:404-452 | key equality, nullifier and commitment, appended to what was there |
| AgeCircuit.EnforceAgeCheck | crypto-circuit-age/src/lib.rs:453-471 | the swap by the direction bit, then the comparison, appended to what was there |
| AgeCircuit.EnforceSignature | crypto-circuit-age/src/lib.rs:473-508 | transcript, hash and signature check, appended to what was there |
| AgeCircuit.Synthesize | crypto-circuit-age/src/lib.rs:230-511 | succeeds exactly on a set-up run or a well-sized witness that parses; the constraints appended are a function of position alone, so they are the same for every public value and witness; the inputs are the host's eight elements |
| AgeStatement.PublicSound | crypto-circuit-age/src/lib.rs:231-291 | inputs equal to the host's force all 832 public bits |
| AgeStatement.DirectionForced | crypto-circuit-age/src/lib.rs:235-291 | of the 32 direction bits the first is the public direction and the other 31 are 0, in every satisfying assignment |
| AgeStatement.BindingSound | crypto-circuit-age/src/lib.rs:404-452 | any satisfying assignment carries the public key, a commitment that opens to its date and randomness, and the nullifier of that commitment |
| AgeStatement.AgeCheckSound | crypto-circuit-age/src/lib.rs:453-471 | any satisfying assignment has the signed date at most the cutoff under Over and at least the cutoff under Under |
| AgeStatement.SignatureSound | crypto-circuit-age/src/lib.rs:473-508 | the signature carried is accepted on the Blake2s hash of the host's encoding of the message carried |
| AgeStatement.CircuitSound | crypto-circuit-age/src/lib.rs:230-511 | every assignment over the field satisfying all constraints, with the host's public inputs, carries a witness of the whole statement |
| AgeCompleteness.CircuitComplete | crypto-circuit-age/src/lib.rs:230-511 | any assignment extending the run's values satisfies all constraints if and only if the statement holds of the witness |
| AgeCompleteness.RunSatisfies | crypto-circuit-age/src/lib.rs:230-511 | the values the run computes are field elements, and satisfy the circuit if and only if the statement holds |
| AgeCompleteness.SatisfiableMeansStatement | crypto-circuit-age/src/lib.rs:230-511 | public values that some assignment satisfies have a witness |
| AgeCompleteness.CircuitRelation | crypto-circuit-age/src/lib.rs:230-511 | public values can be satisfied if and only if some witness makes the statement true |
| AgeCompleteness.ShapeIndependent | crypto-circuit-age/src/lib.rs:230-511 | the exact number of variables and constraints, the same for every public value, every well-sized witness and the set-up run |
| Consistency.SettingHolds | crypto-circuit-age/src/gadgets/mod.rs:7-10 | for all hash functions and every relation of keys, signatures and hashes, whatever it refuses, there are gadgets that meet the hypotheses of the circuit's theorems, over every prime above 2^254 |
| EdwardsLaw.Denominators | crypto-circuit-age/src/gadgets/sapling_ecc.rs:262-439 | where -1 is a square and d is not, 1 + C and 1 - C are nonzero for any two points of the curve |
| EdwardsLaw.SumUnique | crypto-circuit-age/src/gadgets/sapling_ecc.rs:350-439 | the equations of a sum have only one solution in the field |
| EdwardsGadgets.AddSound | crypto-circuit-age/src/gadgets/sapling_ecc.rs:350-439 | any values satisfying `add`'s six constraints on two curve points are the coordinates of their sum in the group |
| EdwardsGadgets.DoubleSound | crypto-circuit-age/src/gadgets/sapling_ecc.rs:262-347 | likewise `double` |
| EdwardsGadgets.SelectMeaning | crypto-circuit-age/src/gadgets/sapling_ecc.rs:139-190 | the choice constraints hold if and only if the new point is the old one under bit 1 and (0, 1) under bit 0 |
| EdwardsGadgets.InterpretSound | crypto-circuit-age/src/gadgets/sapling_ecc.rs:234-260 | values satisfying the curve check are a point of the curve |
| EdwardsGadgets.MulSound | crypto-circuit-age/src/gadgets/sapling_ecc.rs:195-232 | for any number of bits, any satisfying values end in the multiple of the point by the number the bits carry |
| EdwardsRun.Add | crypto-circuit-age/src/gadgets/sapling_ecc.rs:350-439 | the six variables with their values and constraints, or `DivisionByZero` exactly when a divisor is zero |
| EdwardsRun.Double | crypto-circuit-age/src/gadgets/sapling_ecc.rs:262-347 | the five variables with their values and constraints, or `DivisionByZero` exactly when a divisor is zero |
| EdwardsRun.Mul | crypto-circuit-age/src/gadgets/sapling_ecc.rs:195-232 | the loop of doubling, choosing and adding appends the constraints and values MulComplete is about; `AssignmentMissing` for no bits, `DivisionByZero` exactly when a division fails |
| EdwardsRun.AddComplete | crypto-circuit-age/src/gadgets/sapling_ecc.rs:350-439 | on curve points no division fails, the values computed satisfy the constraints and are the sum |
| EdwardsRun.MulComplete | crypto-circuit-age/src/gadgets/sapling_ecc.rs:195-232 | on known bits no division fails, the values computed satisfy all constraints and are the multiple |
| PointGadgets.WitnessSound | crypto-circuit-age/src/gadgets/sapling_ecc.rs:122-135 | satisfied, the witnessed coordinates are those of a point of the group |
| PointGadgets.AssertNotSmallOrder | crypto-circuit-age/src/gadgets/sapling_ecc.rs:76-91 | three doublings and an inverse, or `DivisionByZero` exactly when one of the divisions fails |
| PointGadgets.SmallOrderSound | crypto-circuit-age/src/gadgets/sapling_ecc.rs:76-91 | satisfied only by points that eight times added do not give the neutral one |
| PointGadgets.SmallOrderComplete | crypto-circuit-age/src/gadgets/sapling_ecc.rs:76-91 | on every point whose eightfold has a nonzero first coordinate the values computed satisfy the constraints |
| PointGadgets.FirstCoordinate | crypto-circuit-age/src/gadgets/sapling_ecc.rs:87-88 | in a curve of eight times an odd number of points the first coordinate of an eightfold point is 0 only for the neutral one, so the check refuses nothing more |
| PointGadgets.SmallOrderRefused | crypto-circuit-age/src/gadgets/sapling_ecc.rs:76-91 | the run fails if and only if the eightfold point has first coordinate 0 |
| SignatureRun.AllocVk | crypto-circuit-age/src/gadgets/redjubjub.rs:48-104 | refuses bytes that do not decode and points on which the small-order check fails, which RefusedKey characterises; otherwise the same constraints for every key and the set-up |
| SignatureRun.AllocSig | crypto-circuit-age/src/gadgets/redjubjub.rs:107-186 | likewise for R and s, which RefusedSignature characterises |
| SignatureRun.RefusedKey | crypto-circuit-age/src/gadgets/redjubjub.rs:48-104 | a key is refused if and only if it does not decode or eight times its point is neutral |
| SignatureRun.RefusedSignature | crypto-circuit-age/src/gadgets/redjubjub.rs:107-186 | a signature is refused if and only if R does not decode, eight times R is neutral, or s is not below the order |
| SignatureRun.Verify | crypto-circuit-age/src/gadgets/redjubjub.rs:205-320 | refuses exactly hashes of other than 256 bits and runs in which a division fails; otherwise the constraints of the next rows, whatever the values |
| CurveGadget.VerifySucceeds | crypto-circuit-age/src/gadgets/redjubjub.rs:205-320 | after a key and a signature that were not refused, with any hash bits, no division of `verify` fails |
| SignatureGadget.GadgetSound | crypto-circuit-age/src/gadgets/redjubjub.rs:48-320 | any values satisfying the three gadgets carry a key, a signature and a hash that the curve equation accepts |
| SignatureRun.VerifyComplete | crypto-circuit-age/src/gadgets/redjubjub.rs:205-320 | with the values of the run the constraints hold if and only if the equation does |
| CurveGadget.GadgetCorrect | crypto-circuit-age/src/gadgets/redjubjub.rs:48-320 | the gadget meets all hypotheses the circuit's theorems make about it, for the relation on curve points |
| CurveCircuit.CurveCircuitDecides | crypto-circuit-age/src/lib.rs:230-511 | with this gadget public values can be satisfied if and only if some credential makes the statement true, its signature judged by the equation on the curve |
| CurveCircuit.WitnessVerifies | crypto-sig-redjubjub/src/lib.rs:441-464 | under a key of the prime-order subgroup the signature of any witness, its scalar reduced, passes the host's verifier, or has scalar 0 and is refused as malformed |
| SmallCurve.SmallKitReady | crypto-circuit-age/src/gadgets/redjubjub.rs:48-320 | on a complete Edwards curve of 24 points over the integers modulo 17, every hypothesis on curve, scheme, point encoding and challenge hash holds, with an encoding gadget of selectors and a constant hash |
| SmallCurve.SmallMixedKey | crypto-circuit-age/src/gadgets/redjubjub.rs:48-104 | on that curve a point of the subgroup plus one of order 8 is a key that the circuit's relation accepts on every message and the host refuses |
| Issuance.VerifiersAgree | crypto-sig-redjubjub/src/lib.rs:197-411 | on every key, signature and hash the host accepts if and only if the circuit's relation holds, 0 < s < order and the key is in the prime-order subgroup, although one reduces the challenge modulo the order and the other does not |
| Issuance.EquationOnParts | crypto-circuit-age/src/gadgets/redjubjub.rs:205-251 | at any key and R, split into a subgroup part and a small-order part, the equation holds if and only if the scalars satisfy it modulo the order and the small parts cancel |
| Issuance.VerdictsOnParts | crypto-sig-redjubjub/src/lib.rs:197-411 | for every scheme, key sk * G + t and R = k * G + u with t and u of small order: when the circuit's relation accepts, and that the host accepts if and only if it does, 0 < s < order and t is neutral |
| Issuance.MixedOrderKey | crypto-circuit-age/src/gadgets/redjubjub.rs:48-104 | for every scheme, a small part t that is not neutral and that the challenge takes to the neutral point makes a key, with a signature in range, that the circuit's relation accepts and the host refuses |
| Issuance.OtherScalar | crypto-circuit-age/src/gadgets/redjubjub.rs:152-157 | whatever the circuit's relation accepts it also accepts with the order added to s, where that fits 256 bits, and the host refuses that |
| Issuance.ParsingForm | crypto-circuit-age/src/gadgets/redjubjub.rs:107-186 | whatever the circuit's relation accepts, it also accepts in a form the allocation parses, with the scalar reduced |
| Issuance.IssuedCredentialProves | crypto-circuit-age/src/lib.rs:230-511 | for a credential signed by `sign_cred_v2` over a commitment made on the host, the circuit's run satisfies all constraints if and only if the date is on the right side of the cutoff |
| PedersenHash.PedersenPoint | crypto-circuit-age/src/gadgets/sapling_pedersen.rs:25-109 | the nested loops over segments and windows give the point that the specification defines by the bits: over every 189 bits their own generator times the sum of (1 - 2 s2)(1 + s0 + 2 s1) 16^j; no result exactly when the generators run out or the personalisation has not 6 bits |
| PedersenHash.DigitMeaning | crypto-circuit-age/src/gadgets/sapling_pedersen.rs:50-59 | three bits select the table entry whose index is the number of the first two, negated by the third |
| PedersenHash.SumIsSpecified | crypto-circuit-age/src/gadgets/sapling_pedersen.rs:39-106 | from any segment on, the sum of the selected entries is the point specified by the bits |
| PedersenHash.PersonBitsMeaning | crypto-circuit-age/src/gadgets/pedersen.rs:34-38 | the personalisation is the level of the tree in 6 bits, or 63 for a commitment |
| PedersenHash.PersonalisationsApart | crypto-circuit-age/src/gadgets/pedersen.rs:32-63 | no input of a commitment selects the same digits as any input of a nullifier |
| PedersenHash.Capacity | crypto-commit/src/lib.rs:15-21 | six generators take exactly the inputs of up to 1128 bits, which leaves 1096 for randomness |
| PedersenHash.AdditionsRegular | crypto-circuit-age/src/gadgets/sapling_pedersen.rs:52-79 | within a segment the running sum and the next entry are never equal, opposite or neutral, so the incomplete addition of Montgomery points meets none of its exceptions |
| PedersenHash.DigitsDetermine | crypto-circuit-age/src/gadgets/sapling_pedersen.rs:51-59 | two inputs select the same entries if and only if they agree when padded with zeros to a multiple of three |
| PedersenHash.CommitmentsEqual | crypto-commit/src/lib.rs:57-79 | with up to 151 random bits two commitments are equal if and only if their inputs agree after padding |
| PedersenHash.OneOpening | crypto-commit/src/lib.rs:57-79 | with random bits of one length, two commitments are equal if and only if date and randomness are |
| PedersenHash.PaddedAlike | crypto-commit/src/lib.rs:47-79 | at every length the host accepts, up to 1096 random bits, inputs that agree after padding give one commitment |
| PedersenHash.ZerosVanish | crypto-commit/src/lib.rs:47-79 | at every length the host accepts, zeros appended to the randomness that fit in the last chunk give the same commitment; with up to 151 bits only those do |
| PedersenHash.DateDetermined | crypto-circuit-age/src/lib.rs:438-451 | all witnesses of the statement over one commitment have the same date of birth and randomness |
| MontgomeryLaw.MontgomerySum | crypto-circuit-age/src/gadgets/sapling_ecc.rs:501-573 | for points of the Edwards curve whose Montgomery coordinates differ in the first place, whatever satisfies the three equations of the slope and the third point is the image of their sum |
| MontgomeryGadgets.Add | crypto-circuit-age/src/gadgets/sapling_ecc.rs:501-573 | three variables with their values and constraints, or `DivisionByZero` exactly when the first coordinates are known and equal |
| MontgomeryGadgets.LineSound | crypto-circuit-age/src/gadgets/sapling_ecc.rs:501-573 | any values satisfying these constraints on the images of two points with distinct first coordinates are the image of their sum |
| MontgomeryGadgets.LineComplete | crypto-circuit-age/src/gadgets/sapling_ecc.rs:501-573 | on such points the division does not fail, the values computed satisfy the constraints and are the image of the sum |
| MontgomeryGadgets.SumSound | crypto-circuit-age/src/gadgets/sapling_ecc.rs:501-573 | in the group: LineSound for any two points of odd order that are neither neutral, equal nor opposite |
| MontgomeryGadgets.SumComplete | crypto-circuit-age/src/gadgets/sapling_ecc.rs:501-573 | likewise LineComplete |
| MontgomeryGadgets.IntoEdwards | crypto-circuit-age/src/gadgets/sapling_ecc.rs:448-491 | two variables with their values and constraints, or `DivisionByZero` exactly when a divisor is zero |
| MontgomeryGadgets.EdwardsSound | crypto-circuit-age/src/gadgets/sapling_ecc.rs:448-491 | any values satisfying its constraints on the image of a point with nonzero first coordinate are that point |
| MontgomeryGadgets.EdwardsComplete | crypto-circuit-age/src/gadgets/sapling_ecc.rs:448-491 | on such an image no division fails, and the values computed are that point and satisfy the constraints |
| Lookup.LookupWithNegation | crypto-circuit-age/src/gadgets/sapling_pedersen.rs:55-59 | the variables, values and constraints of the lookup, whatever mix of constants and variables the bits are |
| Lookup.LookupMeaning | crypto-circuit-age/src/gadgets/sapling_pedersen.rs:55-59 | the lookup's constraints hold if and only if the conjunction is held and the second coordinate is the selected one, negated under the third bit |
| Lookup.LookupSound | crypto-circuit-age/src/gadgets/sapling_pedersen.rs:55-61 | with the table of a chunk, any satisfying values are the image of the entry that the three bits select, or of its inverse |
| Lookup.LookupComplete | crypto-circuit-age/src/gadgets/sapling_pedersen.rs:55-61 | on known bits the values computed satisfy the constraints and are that image |
| PedersenGadget.SegmentSound | crypto-circuit-age/src/gadgets/sapling_pedersen.rs:45-86 | any values satisfying a segment's additions and conversion, on the entries its digits select, end in the sum of those entries |
| PedersenGadget.HashSound | crypto-circuit-age/src/gadgets/sapling_pedersen.rs:25-109 | any values satisfying all lookups, additions and conversions end in the point that the bits of personalisation and input specify |
| PedersenGadget.OutputSound | crypto-circuit-age/src/gadgets/pedersen.rs:11-68 | with the encoding of that point behind it, the output bits of any satisfying values are those of the library's hash of the input |
| Verifier.VkRegistry.InitWithVkRegistry | crypto-verifier/src/lib.rs:70-83 | empty lists, lists with an entry that does not parse and second calls are told apart, in this order, and leave the registry as it was; otherwise it holds exactly the ids of the entries, each with the key of its last entry |
| Verifier.LoadedMeaning | crypto-verifier/src/lib.rs:74-78 | a list loads if and only if all entries parse, as the map of exactly their ids to the key of the last entry under each |
| Verifier.VkRegistry.InitWithVkBytes | crypto-verifier/src/lib.rs:50-58 | the same as a registry of the single entry under id 0 |
| Verifier.VkRegistry.VerifyAgeSnark | crypto-verifier/src/lib.rs:123-159 | each failure and its cause; success only under the registered key, on the assembled inputs |
| Verifier.FirstInitialisationWins | crypto-verifier/src/lib.rs:50-83 | over every run of initialisations the first that loads decides the registry for good |
| Verifier.AcceptedMeansStatement | crypto-verifier/src/lib.rs:50-159 | after any run of initialisations an accepted proof was verified under the key of the last entry for the id in the first call that loaded, and whatever values an extractor for that key finds in the proof carry a witness of the whole statement |
| Attestation.ComputeMessageBytes | crypto-commons/src/attestation.rs:338-383 | refuses exactly the fields over 255 bytes; otherwise hashes the preimage of the next rows |
| Attestation.ParsePreimage | crypto-commons/src/attestation.rs:338-383 | a parser recovers the base fields, whether there is a binding section, and its two fields |
| Attestation.PreimagesCollide | crypto-commons/src/attestation.rs:338-383 | two accepted field tuples give the same bytes if and only if the base fields agree, both or neither are bound, and the binding fields agree with a missing one read as empty |
| Attestation.UnboundIsLegacy | crypto-commons/src/attestation.rs:338-383 | without binding fields the bytes are those of the old layout |
| Attestation.Create | crypto-commons/src/attestation.rs:188-208 | refuses exactly an overlong issuer; otherwise carries the arguments as its fields, unbound, under the signature of CreatedVerifies |
| Attestation.CreateBound | crypto-commons/src/attestation.rs:219-247 | refuses exactly overlong fields; otherwise carries the arguments as its fields, bound, under the signature of CreatedVerifies |
| Attestation.CreatedVerifies | crypto-commons/src/attestation.rs:188-324 | under the other half of a key pair what was created verifies, with the fields given, and is accepted at every time from 60 seconds before to 3600 after its timestamp |
| Attestation.Verify | crypto-commons/src/attestation.rs:277-297 | `FieldTooLong` for overlong fields, else the verdict on the signature of the hash of the fields |
| Attestation.VerifyWithTimestamp | crypto-commons/src/attestation.rs:307-324 | accepted exactly from 3600 seconds before to 60 seconds after the current time with fields that fit and a signature that verifies, saturation at both ends of u64 included, and which error otherwise |
| Attestation.SignatureMoves | crypto-commons/src/attestation.rs:338-383 | a signature counts the same on all fields of one meaning |
| Consent.WriteLengthPrefixed | crypto-protocol/src/lib.rs:128-133 | refuses exactly lengths of 2^32 and more |
| Consent.BuildIssuanceConsentMessage | crypto-protocol/src/lib.rs:77-106 | refuses exactly an overlong field; otherwise hashes the preimage of the next rows |
| Consent.ParsePreimage | crypto-protocol/src/lib.rs:77-106 | a parser recovers all seven arguments, including whether there is a nonce |
| Consent.PreimageInjective | crypto-protocol/src/lib.rs:77-106 | equal preimages come from equal arguments, for field lengths up to 2^32-1 |
| Calendar.Render | crypto-commons/src/lib.rs:177-199 | for every i64 second count no variable overflows, and the fields are a valid date and time whose seconds from 1970, counted by leap years and month lengths, are the input |
| Calendar.CivilFromDays | crypto-commons/src/lib.rs:188-199 | for every day such a count reaches, the date is valid and has that day number |
| Calendar.YearOfEra | crypto-commons/src/lib.rs:191-194 | the division formula finds the year of the 400-year era and leaves a day within that year, leap years included |
| Calendar.OrderAgrees | crypto-commons/src/lib.rs:177-199 | valid dates order as their seconds do, so rendering is strictly increasing and has only one valid answer |
| FixedBase.GenerateCircuitGenerator | crypto-circuit-age/src/gadgets/sapling_constants.rs:87-105 | 84 windows of 8; entry k of window w is k * 8^w times the generator |
| FixedBase.TableComputesMultiples | crypto-circuit-age/src/gadgets/sapling_constants.rs:87-105 | for every s < 8^84 the entries selected by its 3-bit digits add up to s times the generator |
| FixedBase.WindowsSuffice | crypto-circuit-age/src/gadgets/sapling_constants.rs:53 | 84 windows are enough for every scalar of the subgroup, and 83 are not |
| FixedBase.TableComputesScalars | crypto-circuit-age/src/gadgets/sapling_constants.rs:53-105 | the table computes s times the generator for every s below the order |
| FixedBase.GeneratePedersenWindows | crypto-circuit-age/src/gadgets/sapling_constants.rs:158-190 | 63 chunks of 4; entry k of chunk w is (k+1) * 16^w times the generator, and none is the neutral element, so the conversion never fails |
| FixedBase.EncodedInjective | crypto-circuit-age/src/gadgets/sapling_constants.rs:158-190 | distinct vectors of nonzero digits from -4 to 4, of any lengths, encode distinct integers |
| FixedBase.EncodedBelowHalf | crypto-commit/src/lib.rs:17-21 | with at most 63 chunks the integer is below half the subgroup order in absolute value |
| FixedBase.PedersenPointsDistinct | crypto-circuit-age/src/gadgets/sapling_constants.rs:158-190 | up to 63 chunks give the same point if and only if they are the same digits |
| Montgomery.ConstantsMatch | crypto-circuit-age/src/gadgets/sapling_constants.rs:29-50 | the constants as written satisfy scale^2 = -(A+2) and d(A+2) = 2-A in the field, and d is not -1 |
| Montgomery.MapsToCurve | crypto-circuit-age/src/gadgets/sapling_constants.rs:110-154 | over any prime field, for any parameters in the relations of the row above: every affine point of the Edwards curve except those with y = 1 maps to a point of the Montgomery curve, x = 0 included, and those with y = 1 to nothing |
| Montgomery.NeutralOnly | crypto-circuit-age/src/gadgets/sapling_constants.rs:110-116 | the only excluded curve point is the neutral one |
| RedJubjub.NonceReads | crypto-sig-redjubjub/src/lib.rs:273-287 | the nonce is made of the tag, all 32 bytes of the key and all 32 of the message hash, in this order: with a hash that returns one of the parts it is that part, reduced |
| RedJubjub.ChallengeReads | crypto-sig-redjubjub/src/lib.rs:294-312 | likewise the challenge of the personalisation, R, the key and the message hash |
| RedJubjub.SignCredV2 | crypto-sig-redjubjub/src/lib.rs:414-438 | each refusal and exactly when, in the order of the code, else the signature whose parts the two rows above and whose acceptance the rows below characterise |
| RedJubjub.VerifyCredV2 | crypto-sig-redjubjub/src/lib.rs:441-464 | each refusal and exactly when, in the order of the code, else the verdict of the group equation |
| Domains.HashInputsApart | crypto-commons/src/constants.rs:7-37 | the inputs of credential, attestation, consent and nonce hashes are never the same bytes, whatever their fields |
| RedJubjub.SignThenVerify | crypto-sig-redjubjub/src/lib.rs:320-464 | for every nonzero key and message that fits: `InvalidNonce` if the nonce is 0, else a signature that verifies under the derived key unless its scalar is 0 |
| RedJubjub.AcceptedScalars | crypto-sig-redjubjub/src/lib.rs:386-411 | verification accepts s if and only if s = nonce + challenge * key modulo the order |
| RedJubjub.UniqueScalar | crypto-sig-redjubjub/src/lib.rs:386-411 | for fixed R, key and hash exactly one canonical s is accepted |
| RedJubjub.SignatureRoundTrip | crypto-sig-redjubjub/src/lib.rs:226-266 | writing then reading gives the signature back, except that a neutral R or zero s is refused |
| RedJubjub.SignatureCanonical | crypto-sig-redjubjub/src/lib.rs:226-266 | 64 bytes that parse are the only encoding of what they parse to |
| RedJubjub.DerivedKeyParses | crypto-sig-redjubjub/src/lib.rs:106-210 | the key derived from a nonzero scalar is accepted in its encoded form |

## Left out

- The Blake2s gadget and `repr`'s strict decomposition into bits: parameters with stated hypotheses. In the circuit's
  theorems the Pedersen gadget is one too. `fixed_base_multiplication` is not modelled.
- PedersenGadget.OutputSound: is one half of what the circuit's theorems ask of the Pedersen gadget. For the other half,
  the run of the loops, each step is proved (`Lookup.LookupComplete`, `MontgomeryGadgets.SumComplete`,
  `MontgomeryGadgets.EdwardsComplete`, `EdwardsRun.AddComplete`) but not the whole, and the gadget stays a parameter there.
- Issuance.IssuedCredentialProves: assumes correct gadgets for the relation on curve points; that the RedJubjub
  gadget is one is `CurveGadget.GadgetCorrect`.
- Verifier.AcceptedMeansStatement: speaks only of proofs an extractor succeeds on. That one exists for Groth16, and
  how often it fails, is not modelled.
- The associativity of the addition law, the primes, non-squares and orders of the actual curves: hypotheses, shown
  to be consistent on a small curve only.
- SHA-256, Blake2s, Ed25519, pairings, Groth16 proving and verification, and all collision resistance.
- `AssignmentMissing` for a variable without a value: it is recorded as unknown instead of ending a proving run.
  With a witness present no member modelled here leaves a value out.
- `crypto-circuit-age/src/gadgets/pedersen.rs:71-92`: `enforce_bytes_equal` emits the constraints of
  `enforce_bits_equal`, which is used for it.
- The two random number sources: the random buffer is a parameter.
- `Timestamp::new`'s range checks, nanoseconds, padding and the sign of the year in the rendered string.
- `sign_cred_v2_with_rp` and `verify_cred_v2_with_rp`: the same scheme on a longer transcript.
- `compute_circuit_constants_hash`, `code_challenge_s256`, `compute_origin_hash`, `rp_challenge`, `compute_replay_tag`.
- `crypto-prover`: logging, platform detection, panic hooks, timing and retries around bellman.
- Serialisation with serde and hex, error display, zeroisation, constant-time behaviour.
- Examples, tools, fuzz targets.
