# groth16-from-scratch in Dafny

A Dafny model of the arithmetic core of a small Python Groth16 toolkit:

- the modular vector helpers behind the R1CS check;
- the loaders that validate an R1CS and a witness;
- the scalars of the trusted setup;
- the scalars of the QAP prover;
- the verifier's pairing equation.

The curve groups are modelled by exponents: a point k·G1 or k·G2 is represented by k modulo the group order p. So `multiply(P, n)` multiplies exponents modulo p, and `pairing(b·G2, a·G1)` is a·b mod p. p is a parameter (the source fixes it to BN254's `curve_order`). `Prime(p)` is assumed only in the clauses that need every nonzero residue to be invertible.

Modules, following the source layout:

- `Results`: the `Error` values, one per assertion or library exception of the source, plus `Option` and `Result`.
- `ModArith`: Python's `%` (floor semantics, failing on 0), congruence, powers, and an extended-Euclid inverse standing for `pow(x, -1, p)`, proved correct, unique and total on nonzero residues modulo a prime.
- `Utils`: `linear_combination`, `matrix_vector_product`, `vectors_modular_equal`, `hadamard_product`, and the R1CS point check O·a ≡ (L·a)∘(R·a) composed from them.
- `R1cs`: the key lookups and the five shape assertions of `load_matrices_from_json`.
- `Witness`: `load_witness_from_json`, `load_public_witness_from_json` and `public_inputs_length`. The parsed JSON list is the input. A galois field conversion accepts exactly the integers in [0, q).
- `Curve`: the exponent model of G1, G2, `multiply` and `pairing`.
- `Qap`: the vanishing polynomial t(τ) = Π_{i=1..m}(τ − i) and where it vanishes modulo p.
- `TrustedSetup`:
  - the powers of τ in G1 and G2;
  - t(τ)·G1;
  - the t(τ)·δ⁻¹ powers;
  - the ψ values and their γ⁻¹/δ⁻¹ scaling;
  - the public/private split of ψ;
  - the data flow of `generate_srs`.
- `Verifier`: `pairing(B, A) == pairing(G2, C)`.
- `Prover`: the QAP proof (u, v, w, t, h and the exponents of A, B, C) and the "somewhat zero knowledge" witness lifting.
- `Scenarios`: the repository's unit-test cases as lemmas.

Where the code departs from the textbook Groth16 construction, the model follows the code:

- `power_of_tau_G1_with_t` returns one entry (not zero) when there is a single constraint.
- `verifier.py` checks e(B, A) = e(G2, C), not the full Groth16 equation with α, β, γ, δ.
- The QAP prover uses no blinding factors.
- `generate_qap_proof` draws its own τ (`prover/prover.py:45`) and never reads the proving key.
- Its check that u·v = w + h·t (`prover/prover.py:71`) can never fail, because h is computed from that same equation. A witness that does not satisfy the R1CS therefore still gets a proof that the verifier accepts. `GenerateQapProof`'s contract states this: it never returns `QapRelationFails`, and every proof it returns passes `Verify`.

`GenerateSrs`'s contract records a consequence of `random.randint(1, curve_order)` including its upper bound. A draw equal to p aborts the setup. For δ, and for γ when there is at least one variable, it is not invertible. For τ, α or β, the field refuses it. Over a prime, the contract also characterises success exactly.

## Model

| member | source | states |
|---|---|---|
| `ModArith.ModInverse` | trusted_setup/trusted_setup.py:49 | a returned inverse lies in [0, p) and x·x⁻¹ ≡ 1; none exists when x ≡ 0 |
| `ModArith.InverseExists` | trusted_setup/trusted_setup.py:49 | modulo a prime, every x ≢ 0 has an inverse, so `pow(x, -1, p)` does not raise |
| `ModArith.InverseUnique` | trusted_setup/trusted_setup.py:49 | two inverses of the same x modulo p in [0, p) are equal |
| `Utils.LinearCombination` | utils/utils.py:1-3 | unequal lengths fail the assertion; a zero modulus fails; otherwise the result is congruent to Σ cᵢ·vᵢ and lies in [0, m) for m > 0 |
| `Utils.LinearCombinationEmpty` | utils/utils.py:3 | the combination of two empty lists is 0 |
| `Utils.LinearCombinationCongruent` | utils/utils.py:3 | replacing inputs by congruent ones leaves the result unchanged |
| `Utils.MatrixVectorProduct` | utils/utils.py:5-6 | succeeds iff every row's combination succeeds; one entry per row, entry k being row k's combination; a failure is the first failing row's error |
| `Utils.MatrixVectorProductShape` | utils/utils.py:5-6 | with a nonzero modulus: succeeds iff every row is as long as the vector, fails with the length error otherwise, and entry k ≡ row k · vector |
| `Utils.AllPairsCongruent` | utils/utils.py:11 | with a nonzero modulus, true iff every pair is congruent; with modulus 0, fails iff there is a pair to compare |
| `Utils.VectorsModularEqual` | utils/utils.py:8-11 | false on a length mismatch; otherwise true iff every pair is congruent; fails only on a zero modulus with a pair to compare |
| `Utils.VectorsModularEqualReflexive` | utils/utils.py:8-11 | every vector is modularly equal to itself |
| `Utils.VectorsModularEqualSymmetric` | utils/utils.py:8-11 | swapping the vectors does not change the answer |
| `Utils.HadamardProduct` | utils/utils.py:14-16 | unequal lengths fail the assertion; otherwise the same length with entries ≡ aᵢ·bᵢ, in [0, m) for m > 0 |
| `Utils.HadamardProductCommutative` | utils/utils.py:14-16 | the product does not depend on the order of its arguments |
| `Utils.R1csPointCheckDecides` | utils/utils.py:1-16 | on conforming matrices the composed check never errs and answers exactly whether every constraint (L_k·a)(R_k·a) ≡ O_k·a holds |
| `Utils.R1csPointCheckRejectsShortWitness` | tests/test_verifier.py:69-86 | a witness whose length differs from L's first row gives the length error rather than a verdict |
| `R1cs.RowsMatchFirstIsRectangular` | r1cs/r1cs.py:13-15 | "every row as long as the first" is the same as "any two rows equally long" |
| `R1cs.CheckShape` | r1cs/r1cs.py:12-19 | succeeds iff equal row counts, each matrix rectangular, and L non-empty with a non-empty first row, returning L, R, O unchanged; errors in the order rows, L, R, O, empty |
| `R1cs.LoadMatrices` | r1cs/r1cs.py:6-19 | a missing "L", "R" or "O" is reported in that order; otherwise success iff the three matrices are well shaped, returned unchanged |
| `R1cs.MissingKeyDistinctFromShape` | r1cs/r1cs.py:6-8 | the loader reports a missing key exactly when a key is missing, never for a shape error |
| `Witness.FieldElement` | witness/witness.py:16 | the field accepts x iff 0 <= x < q, and keeps its value |
| `Witness.ToField` | witness/witness.py:15-17 | succeeds iff every entry lies in the field, returning the entries unchanged; otherwise the field error |
| `Witness.Reduce` | witness/witness.py:20-21 | same length, entry i ≡ val_i, every entry in [0, m) for m > 0 |
| `Witness.ReduceIdempotent` | witness/witness.py:20-21 | reducing twice equals reducing once |
| `Witness.LoadList` | witness/witness.py:4-25 | empty input gives the loader's own error; the field branch wins over the modulus; success iff non-empty, in the field when one is given, and a nonzero modulus when one is given; the list is unchanged with neither |
| `Witness.LoadWitness` | witness/witness.py:4-25 | the witness loader fails with the empty-witness error exactly on an empty list and otherwise returns a non-empty list |
| `Witness.LoadPublicWitness` | witness/witness.py:28-49 | the same rules with the public witness's own empty error |
| `Witness.PublicInputsLength` | witness/witness.py:51-54 | the length of the loaded public witness, hence at least 1; the empty error otherwise |
| `Witness.LoadWitnessReducedIsFixed` | witness/witness.py:20-21 | loading an already reduced witness with the same modulus returns it unchanged |
| `Witness.FieldTakesPrecedence` | witness/witness.py:15-17 | with a field given, the modulus argument has no effect |
| `Curve.PairingBilinear` | verifier/verifier.py:13 | e(a·Q, b·P) = e(Q, P)·(a·b) in the exponent model |
| `Qap.VanishingAtRoot` | trusted_setup/trusted_setup.py:35-39 | t(τ) ≡ 0 when τ ≡ i for some constraint index i in 1..m |
| `Qap.VanishingAwayFromRoots` | trusted_setup/trusted_setup.py:35-39 | modulo a prime, t(τ) ≢ 0 when τ is none of 1..m |
| `Qap.VanishingZeroIff` | trusted_setup/trusted_setup.py:35-39 | modulo a prime, t(τ) ≡ 0 exactly when τ ≡ i for some i in 1..m |
| `TrustedSetup.GetConstraintsNumber` | trusted_setup/trusted_setup.py:14-17 | (number of rows, length of the first row), and the index error on an empty L |
| `TrustedSetup.PowerOfTauG1` | trusted_setup/trusted_setup.py:21-26 | exactly m entries for m >= 1 (one otherwise), entry k having exponent τᵏ mod p |
| `TrustedSetup.PowerOfTauG2` | trusted_setup/trusted_setup.py:28-33 | the same in G2 |
| `TrustedSetup.PowersOfTauPairingLink` | trusted_setup/trusted_setup.py:21-26 | consecutive powers satisfy e(τ·G2, srs[i]) = e(G2, srs[i+1]) |
| `TrustedSetup.CalculateTAtTauG1` | trusted_setup/trusted_setup.py:35-42 | the exponent is Π_{i=1..m}(τ − i) mod p although the product is reduced after every factor |
| `TrustedSetup.PowerOfTauG1WithT` | trusted_setup/trusted_setup.py:46-53 | succeeds iff δ is invertible (modulo a prime: δ ≢ 0); 1 + max(0, m − 2) entries; entry k times δ is t(τ)·τᵏ |
| `TrustedSetup.PsiEntryMeaning` | trusted_setup/trusted_setup.py:74-82 | an entry times γ (public index) or δ (otherwise) is α·Rᵢ(τ) + β·Lᵢ(τ) + Oᵢ(τ); modulo a prime the entry exists iff the evaluations reach i and the scale is nonzero |
| `TrustedSetup.CalculatePsiValues` | trusted_setup/trusted_setup.py:55-84 | τ, α, β outside the field fail; otherwise success iff every entry below the variable count succeeds; one entry per variable with the scaling above; a failure is the first failing entry's error |
| `TrustedSetup.SplitPsi` | trusted_setup/trusted_setup.py:109-110 | the two parts concatenate to ψ in order, with lengths min(k, n) and n − min(k, n) |
| `TrustedSetup.PsiEntriesAllOk` | trusted_setup/trusted_setup.py:73-82 | modulo a prime, with δ nonzero and index 0 public, the psi loop completes exactly when the evaluations reach every index and, if there is an index, γ is not p |
| `TrustedSetup.SplitPsiScaling` | trusted_setup/trusted_setup.py:78-110 | the verifying part holds exactly the γ-scaled entries and the proving part the δ-scaled ones |
| `TrustedSetup.GenerateSrs` | trusted_setup/trusted_setup.py:89-120 | empty L and empty public witness fail first; a draw of δ = p, or of γ = p with a variable to scale, is not invertible, and a draw of p for τ, α or β leaves the field; modulo a prime, success holds exactly when none of these happens and the evaluations cover every variable; on success the three SRS sequences, ψ and its split have the lengths and exponents above, and α, β, γ, δ are lifted into their groups |
| `Verifier.Verify` | verifier/verifier.py:13 | the check passes iff a·b ≡ c for the exponents of A, B, C, and otherwise fails its assertion |
| `Verifier.VerifyIffProductRelation` | verifier/verifier.py:13 | a proof (u·G1, v·G2, c·G1) is accepted exactly when c ≡ u·v |
| `Prover.WeightedSum` | prover/prover.py:51-59 | the field sum of wᵢ·eᵢ over the pairs `zip` forms (the shorter list's length), in [0, p) |
| `Prover.VanishingInField` | prover/prover.py:62-64 | equals the trusted setup's t(τ) for the same τ and constraint count; fails when a constraint index reaches p and is refused by the field |
| `Prover.QapQuotient` | prover/prover.py:69 | field division by t fails iff t has no inverse; otherwise h·t + w ≡ u·v |
| `Prover.QapCheck` | prover/prover.py:72 | the assertion passes iff u·v ≡ w + h·t |
| `Prover.QapCheckNeverFails` | prover/prover.py:69-72 | the quotient the prover computes always satisfies its own assertion |
| `Prover.AssembleProof` | prover/prover.py:68-77 | division by t fails iff t has no inverse; otherwise A, B, C have exponents u, v and u·v, and the proof passes the verifier |
| `Prover.GenerateQapProof` | prover/prover.py:26-84 | never fails the QAP assertion; a produced proof passes the verifier; A, B have exponents u, v from the reduced witness and C has u·v; empty witness, τ outside the field, too many constraints and t(τ) ≡ 0 give their errors; modulo a prime it succeeds exactly when none of these occurs |
| `Prover.SomewhatZkProof` | prover/prover.py:13-24 | an empty witness fails; success iff every entry is nonnegative; two lists of the witness's length with entry i ≡ wᵢ in both groups |
| `Prover.SomewhatZkGroupsAgree` | prover/prover.py:16-17 | each G1 entry and its G2 partner carry the same scalar: e(wᵢ·G2, G1) = e(G2, wᵢ·G1) |
| `Prover.SomewhatZkCheckIffSatisfies` | prover/prover.py:13-24 | the lifted witness passes the per-constraint pairing check exactly when the witness satisfies the R1CS modulo p |
| `Scenarios.SingleProductCheck` | tests/test_verifier.py:10-25 | the one-constraint circuit z = x·y accepts [1, x, y, z] modulo m exactly when z ≡ x·y |
| `Scenarios.SingleConstraintWitnessesAccepted` | tests/test_verifier.py:91-188 | the point check accepts the single-constraint witnesses of the tests, including negative entries and wrap-around |
| `Scenarios.TwoConstraintWitnessAccepted` | tests/test_verifier.py:30-46 | the two-constraint witness with a −1 entry in O is accepted modulo 101 |
| `Scenarios.FailingWitnessRejected` | tests/test_verifier.py:51-66 | a = [1, 2, 3] with L = R = [[1, 2, 3]], O = [[1, 1, 1]] is rejected |
| `Scenarios.MismatchedDimensionsRejected` | tests/test_verifier.py:71-86 | four-column matrices against a three-entry witness give the length error |
| `Scenarios.LoaderScenarios` | tests/test_r1cs.py:10-140 | each test document of the R1CS loader gets the verdict the tests expect |
| `Scenarios.WitnessScenarios` | tests/test_wintess.py:10-36 | the witness list is returned unchanged, and an empty one is refused |

## Left out

- py_ecc curve arithmetic and pairing: replaced by the exponent model. The curve equations, point addition and the BN254 constants are not modelled.
- `lagrange_poly_vector` and polynomial evaluation: `lagrange_poly_vector` is not part of this model. The evaluations Lᵢ(τ), Rᵢ(τ), Oᵢ(τ) are inputs, one per column of the matrices.
- The galois field: only its range check on conversion and its arithmetic modulo p are modelled.
- `random.randint`: the draws of τ, α, β, γ, δ and the prover's τ are parameters in the ranges the calls produce.
- `open`, `json.load`, `print`: the parsed JSON value is the input and nothing is printed.
- `keys/keys.py`, the key and proof files, and `save_json`: file I/O.
- The loader calls as written: `prover/prover.py:29` passes `modulo=` and `trusted_setup/trusted_setup.py:90` passes `galois_field=`, neither of which `load_matrices_from_json` accepts. The model starts from the loaded matrices.
- The key-writer call at `trusted_setup/trusted_setup.py:117`: it has the wrong number of arguments. `GenerateSrs` returns what would be written.
- `groth16.py`: command-line dispatch.
- The `VerifierNoZK` class that tests/test_verifier.py imports is not part of this model. Its check is modelled as the composition of the `utils/utils.py` helpers (matrix–vector products of L, R, O, Hadamard product, modular equality).
- `Prover.SomewhatZkCheckIffSatisfies`: the per-constraint pairing check it is stated against is the natural check for these lists; a verifier for them is not part of this model.
- `Curve.MulG1`, `Curve.MulG2`: a negative scalar, for which `multiply` recurses without end, is excluded by typing the scalar as `nat`. Only `Prover.SomewhatZkProof`, which lifts raw witness values, models that case (as an error).
- `Prover.GenerateQapProof`: `p` is not fixed to BN254's group order, and field division by t is modelled by the inverse, so for a composite `p` a zero divisor also reports `DivisionByZero`.
