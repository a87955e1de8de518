# Verified model of the InspiRING / ReinspiRING private retrieval stack

The repository answers private database queries with SimplePIR and then packs the many LWE
answers of a block into one RLWE ciphertext.  Almost every fast routine in it has a slow definition
beside it.  This project models both sides in Dafny and proves that they agree, for every degree,
modulus, key, error and input, and that the whole pipeline returns the requested database row.

Run `dafny verify dfyconfig.toml` to check the project.

## What is modelled

- **The ring.**  `R_q = Z_q[X]/(X^d + 1)` is a sequence of `d` reduced integers.  `Ring` and `RingLaws`
  define sums, negacyclic products, shifts by powers of `X` with sign wrap-around and the automorphisms
  `tau_t : X -> X^t`, and prove the ring and automorphism laws from those definitions.  `Galois` adds the
  powers of 5 modulo `2d` and the trace lemma.
- **Packing** (`KeySwitch`, `Params`, `Intermediate`, `Collapse`, `MaskCascade`, `Packing`, `Preprocess`,
  `PackNoise`, `NoiseBound`).  Transform, aggregate and collapse, the affine cache, the fixed public trace with
  uploaded bodies and the mask-reuse builder.  Errors are explicit polynomials: phases are equalities, and bounds on
  them are derived afterwards.
- **NTT form** (`Ntt`, `NttInverse`, `Automorph`, `AggregateNtt`, `Fused`, `FusedRun`, `FusedPack`).  The transform
  and its inverse, slot permutation tables, the transposed aggregate and the fused 128-bit accumulators under any
  chunking and join order.
- **Compile** (`RingFft`, `Compile`, `CompileWidth`, `KgPart`).  The in-place FFT over `R_q` and the three compilers.
- **Lifted products** (`Lift`, `LiftOps`, `Conjugate`).  Centred operands, two or three primes, Garner
  reconstruction and the capacity checks.
- **SimplePIR** (`SimplePir`, `Retrieval`, `HintLayout`, `Transport`, `Budget`, `EndToEnd`).  Queries, hints, answers,
  decoding, and one retrieval from the database through both byte formats to the decoded block.
- **Codecs, layouts and samplers** (`Bits`, `Rounding`, `ResponseBody`, `Sampling`, `Layout`, `Ingest`,
  `Snapshot`, `SnapshotLoad`, `NativeWire`, `Prepared`).

`Modular` holds facts about remainders, `Wrappers` the optional value and the fallible result, `MachineWords` the
wrapping and signed readings of 64-bit words, and `Widths` the exact limits of the 64-bit arithmetic.

## What is taken as given

- The foreign NTT evaluates a polynomial at the `d` odd powers of a number `w` with `w^d = -1 mod q`, in some
  fixed slot order in which every odd power has one slot (`Ntt.Slots.Ok`), and the foreign inverse returns the
  polynomial with the given slot values.  That there is exactly one, with an explicit formula for it, is proved from
  the trace lemma (`NttInverse.BackwardForward`), and so are how automorphisms, shifts and products act on slots
  (`Ntt.AtTau`, `Ntt.AtShift`, `FusedPack.AtMul`).
- The gadget vector is `1, z, z^2, ...`, and the foreign Barrett routine is reduction modulo `q`.
- Random draws, Gaussian samples, digests and clocks are arbitrary parameters.
- Machine words are integers with their width written out.  64-bit sums wrap, casts to signed words are explicit and
  128-bit accumulators are shown to stay below their limit.  A member whose sums could wrap carries in its contract the
  condition under which they do not, and `Widths` and `CompileWidth` prove the limits of those sums exact; the ring
  transform of the compiler, which is entered only with `q` up to `2^62`, needs none.  Overflow is modelled as
  wrap-around, which is what an optimised build does; a debug build stops instead, and below the stated limits there is
  nothing to stop for.  The sums inside the foreign ring operations are part of those operations.

## Main results

1. `EndToEnd.RetrieveBlock`: for every database, target row, secret, mask and error, and for all moduli below `2^63`,
   running the whole retrieval on 64-bit words (key bodies under public masks, query encryption, query bytes, hints,
   transposed aggregate, public trace of top rows the server computes itself, fused packing, response rounding with its
   casts, response bytes, published mask, decoding) returns the target row whenever one inequality on parameters and
   error bounds, written out in the contract, holds.
2. `Packing.PackingCorrect`: under `s`, coefficient `k` of the packed pair reads `<a_k, s> + b_k` plus the
   packing error; `PackNoise.PackErrorSum` gives that error in closed form as the sum over the `d - 1` recorded
   digit blocks of rotated key errors times digits, and `NoiseBound.PackErrorBound` bounds every centred coefficient
   of it by `(d - 1) d B (ell + 1) z / 2` for key errors of magnitude `B`.
3. `Preprocess.UploadedMatchesBound`: the stored public trace with uploaded bodies gives the ciphertext that
   binding the whole key pair and packing online gives.
4. `Compile.CompileFast`, `Compile.CompileNaive` and `Compile.CompileNaiveFused` return the same matrix, in
   both modulus branches, on everything the fast compiler accepts (`Compile.FastNarrow`); `Compile.MatrixMeaning` and
   `KgPart.CompiledUpload` say what it computes.
5. `AggregateNtt.BuildAAgg` equals the direct aggregate slot for slot, and `Packing.DirectAggregate` equates
   the direct one with aggregate-of-transform.
6. `FusedPack.CollapseUploaded` equals the ring cascade for every schedule; `Fused.NoOverflow` and
   `Fused.FitsIsNeeded` say that the headroom check is exactly what the accumulators need.
7. `LiftOps.SumBounded` and `LiftOps.EvalPublicDot`: lifted sums within their public bounds are never refused and are
   the exact sums of ring products.
8. Exact widths, each an equivalence over all operands: `Widths.RescaleExact` (the response rounding computes the
   rounding for every word and output modulus if and only if `q < 2^63`), `Widths.EntryExact` (a query entry is right if
   and only if `Delta + q <= 2^64`), `Widths.LaneGuardExact` (the headroom check alone keeps the lane sums of the fused
   collapse within 64 bits if and only if it counts four terms or more, as it does for all accepted parameters of degree
   at least 4), `Widths.HeadroomExact`, `CompileWidth.SchoolbookFits` and `CompileWidth.NaiveFusedFits`.
9. `Retrieval.DecodeExact` finds the exact condition under which rounding decodes every error below half a
   step.  The parameters' `p <= Delta/2` implies it (`Retrieval.HalfDeltaSuffices`), and
   `Retrieval.DecodeNeedsRoom` gives the failing input when it does not hold.
10. `Prepared.BuiltStateTrip`: every state with the tables the crate builds survives the prepared-state file, and
    `Prepared.ReadWrite`: every accepted file is written back byte for byte.  `Prepared.WriteRead` gives the exact
    condition for arbitrary tables, whose exponents `write` itself does not check.  `Prepared.Write` and the layout
    lemmas beside it place every word of the file.
11. `NativeWire.RunKept` and `NativeWire.KeptReachable`: the profiles the builder can reach are exactly those
    that meet the mode rules, which `NativeWire.BuildLimits` gives in numbers; `NativeWire.SendReceive` then says what
    every generated request leaves the server with, and `NativeWire.PublishTrip` what every published mask leaves the
    client with.
12. `Rounding.DitheredCount` and `Rounding.DitheredMean`: dithered rounding is exactly unbiased over uniform draws.

## Model

| member | source | states |
|---|---|---|
| Galois.TauGPow | inspiring/src/automorph.rs:36-51 | the square-and-multiply loop returns 5^j mod 2d |
| Galois.StoredExponents | inspiring/src/automorph.rs:28-51 | the reduced exponents act as X -> X^(5^j) and X -> X^(-5^j) |
| Galois.FiveTwoAdic | inspiring/src/automorph.rs:28-51 | 5^(2^k) is 1 plus an odd multiple of 2^(k+2), the fact behind the trace |
| Galois.TraceMonoVanishes | inspiring/src/automorph.rs:358-373 | the images of X^i cancel for every 0 < i < d |
| Galois.TraceLemma | inspiring/src/automorph.rs:358-373 | for every power-of-two d the d images of p add up to d times its constant coefficient |
| Intermediate.TraceRun | inspiring/src/automorph.rs:358-389 | the interleaved accumulation loop, with 64-bit sums, returns the constant d p[0] for every q up to 2^63 |
| Intermediate.ATildeRun | inspiring/src/lwe.rs:71-88 | the buffer holds a(X^-1) |
| Intermediate.EmbeddingInnerProduct | inspiring/src/lwe.rs:71-88 | the constant coefficient of a(X^-1) s is <a, s> |
| Intermediate.TransformRun | inspiring/src/intermediate.rs:50-92 | slot j is d^-1 tau_j(a(X^-1)) and the body is the constant b |
| Intermediate.TransformPhase | inspiring/src/intermediate.rs:50-92 | under the secrets tau_j(s) the wide ciphertext reads <a, s> + b |
| Intermediate.MulRawByXk | inspiring/src/intermediate.rs:132-157 | the rotation is multiplication by X^(k mod d), with sign wrap-around |
| Intermediate.AggregateRun | inspiring/src/intermediate.rs:94-124 | every slot and the body hold the sum of X^k times ciphertext k, with 64-bit sums in the body, for every q up to 2^63 |
| Intermediate.AggregatePhase | inspiring/src/intermediate.rs:94-124 | the aggregate's phase is the sum of X^k times the k-th phase |
| Intermediate.PackedPhase | inspiring/src/intermediate.rs:50-124 | aggregate of transform reads coefficient k as <a_k, s> + b_k |
| Params.ModInverse | inspiring/src/params.rs:191-202 | extended Euclid returns an inverse exactly when the arguments are coprime |
| Params.PowerOfTwoCoprime | inspiring/src/params.rs:89-184 | an odd q is coprime to every power-of-two degree, so d^-1 exists |
| Params.New | inspiring/src/params.rs:89-184 | accepts exactly the listed constraints, the finite positive noise width among them, and yields Delta, d^-1 and a gadget that covers q |
| KeySwitch.DecomposeCoefficient | inspiring/src/key_switching.rs:210-263 | the mask, shift and carry loop computes the signed digits of one coefficient |
| KeySwitch.SignedGadgetInvert | inspiring/src/key_switching.rs:210-263 | all digit polynomials of the input |
| KeySwitch.DigitsRecompose | inspiring/src/key_switching.rs:210-263 | the digits recompose to the coefficient modulo q |
| KeySwitch.DigitsBounded | inspiring/src/key_switching.rs:210-263 | low digits are centred in [-z/2, z/2) and the carry keeps the top digit at most z whenever z^ell >= x |
| KeySwitch.GadgetRecomposes | inspiring/src/key_switching.rs:210-263 | gadget vector times digit polynomials is the polynomial |
| KeySwitch.SetupSwitches | inspiring/src/key_switching.rs:71-131 | a generated key hides z^i s_from under s_to with exactly its errors, and the drawn masks cancel its top row |
| KeySwitch.MasksCancel | inspiring/src/preprocess.rs:1344-1346 | a top row computed from public masks plus those masks is zero, so it carries the sign the bodies were made for |
| KeySwitch.ImageSwitches | inspiring/src/key_switching.rs:272-298 | the automorphic image of a key switches between the images of the secrets, with the images of the errors |
| KeySwitch.KsSwitchPhase | inspiring/src/key_switching.rs:138-208 | the switched pair reads c1 s_from + c2 plus key errors times digits |
| Collapse.CollapseState.CollapseOneWithDigits | inspiring/src/collapse.rs:56-76 | one slot is popped, its neighbour and the body gain the two products, one switch is counted |
| Collapse.CollapseState.CollapseOne | inspiring/src/collapse.rs:43-54 | the same with the digits of the popped slot |
| Collapse.CollapseState.CollapseHalf | inspiring/src/collapse.rs:78-89 | one slot is left after one switch per image |
| Collapse.CollapseRun | inspiring/src/collapse.rs:115-173 | both halves and the final switch, with exactly d - 1 switches |
| Collapse.StepOnePhase | inspiring/src/collapse.rs:43-76 | one step changes the wide phase by its own switch error only |
| Collapse.HalfPhase | inspiring/src/collapse.rs:78-113 | a half cascade keeps the wide phase up to its accumulated errors |
| Collapse.CollapsePhase | inspiring/src/collapse.rs:115-173 | the final pair's phase is the wide phase plus all switch errors |
| MaskCascade.HalfSplits | inspiring/src/collapse.rs:78-113 | a half is a cascade on masks alone plus one sum over the bodies |
| Packing.CollapseSplits | inspiring/src/collapse.rs:175-255 | the collapse is the public trace of the masks and the chain over the bodies, in digit order |
| Packing.CollapseAffine | inspiring/src/collapse.rs:257-289 | a collapse adds its body to the cached zero-body collapse |
| Packing.GeneratedKeysHide | inspiring/src/key_switching.rs:71-131 | keys generated for tau_g(s) and tau_h(s), from any masks and errors, meet what the packing theorems ask of a key pair |
| Packing.RestoredKeysHide | inspiring/src/preprocess.rs:213-254 | uploaded bodies under the top rows of the public masks are a key pair that meets what packing asks |
| Packing.ImagesChain | inspiring/src/preprocess.rs:166-211 | the images of K_g at 5^i and -5^i hand slot secret i + 1 down to slot secret i |
| Packing.FullCollapsePhase | inspiring/src/preprocess.rs:166-211 | collapsing under K_g and K_h keeps the wide phase up to the d - 1 switch errors |
| Packing.DirectAggregate | inspiring/src/preprocess.rs:1519-1550 | the direct aggregate is aggregate of transform on the same rows, whatever the b scalars |
| Packing.PackingCorrect | inspiring/src/pack.rs:46-63 | the packed pair's phase is the packed message plus exactly the packing error |
| PackNoise.HalfErrorSum | inspiring/src/collapse.rs:91-113 | the errors of a half are error rows times the digits of the mask cascade |
| PackNoise.PackErrorSum | inspiring/src/collapse.rs:115-255 | the packing error is the body chain run on rotated key errors over d - 1 blocks; it depends on no body and no b |
| PackNoise.UploadedCorrect | inspiring/src/preprocess.rs:308-338 | stored trace and uploaded bodies decrypt to the packed message plus that error |
| NoiseBound.WithinTau | inspiring/src/automorph.rs:57-75 | odd automorphisms permute coefficients up to sign, so magnitudes stay |
| NoiseBound.WithinMul | inspiring/src/key_switching.rs:183-208 | a product of d-term polynomials has coefficients at most d A B |
| NoiseBound.DigitMagnitude | inspiring/src/key_switching.rs:210-263 | low digits have magnitude at most z/2, the top digit at most z |
| NoiseBound.TraceSmall | inspiring/src/preprocess.rs:495-566 | every digit block of a stored trace is small |
| NoiseBound.PackErrorBound | inspiring/src/collapse.rs:115-255 | from key errors of magnitude B, each centred coefficient of the packing error is at most (d-1) d B (ell+1) z/2 |
| Preprocess.Pack | inspiring/src/pack.rs:46-63 | rejects exactly the wrong shapes, otherwise returns the packed pair |
| Preprocess.FillBody | inspiring/src/pack.rs:46-63 | the body buffer holds b_k mod q |
| Preprocess.CollectHalfDigits | inspiring/src/preprocess.rs:552-566 | the recorded digit blocks and the surviving slot depend on masks only |
| Preprocess.PrecomputeReferenceTrace | inspiring/src/preprocess.rs:495-550 | the general cascade on zero-body keys yields the public trace |
| Preprocess.ReuseHalf | inspiring/src/preprocess_reuse.rs:55-79 | the mask-only half returns the same survivor and digit order |
| Preprocess.BuildWithTop | inspiring/src/preprocess_reuse.rs:20-53 | two independent halves give the same c1 and the same digit blocks |
| Preprocess.UploadedMatchesBound | inspiring/src/preprocess.rs:235-338 | uploaded bodies on a stored trace equal binding the full key pair and packing online |
| Preprocess.UploadedHalf | inspiring/src/preprocess.rs:1209-1231 | one half of the stepwise cascade adds its body sum |
| Preprocess.UploadedStepwise | inspiring/src/preprocess.rs:1176-1207 | the stepwise cascade over uploaded bodies |
| RingFft.RevInvolution | reinspiring/src/compile.rs:322-336 | bit reversal is its own inverse |
| RingFft.NextReversed | reinspiring/src/compile.rs:322-336 | the counter incremented from its top bit visits the reversed indices |
| RingFft.BitReverse | reinspiring/src/compile.rs:322-336 | the swap loop is the bit-reversal permutation |
| RingFft.Butterfly | reinspiring/src/compile.rs:337-388 | both outputs of the radix-2 step, from X^d = -1 |
| RingFft.RotateByXPower | reinspiring/src/compile.rs:390-410 | the rotation is multiplication by a power of X modulo X^d + 1 |
| RingFft.ButterflyMasked | reinspiring/src/compile.rs:338-367 | wrapping 64-bit words masked to a power-of-two q compute the butterfly modulo q |
| RingFft.ButterflyGeneric | reinspiring/src/compile.rs:368-388 | the butterfly for a general modulus |
| RingFft.RunStage | reinspiring/src/compile.rs:337-388 | one stage turns transforms of length n into transforms of length 2n in place |
| RingFft.RingFftInPlace | reinspiring/src/compile.rs:322-388 | entry x becomes the sum of X^(2 m x) times old entry m, in both modulus branches |
| Compile.TauCoeffs | reinspiring/src/compile.rs:28-45 | the scatter is the automorphism X -> X^g, for q up to 2^63, coefficients up to 2^64 - q and exponent products that do not wrap or wrap harmlessly because 2d divides 2^64 |
| Compile.NegacyclicMatrix | reinspiring/src/compile.rs:47-64 | column c is X^c t |
| Compile.SignedPermMatrix | reinspiring/src/compile.rs:66-77 | column c is X^(c g), under the same condition |
| Compile.MatmulSquare | reinspiring/src/compile.rs:79-99 | column j of the product combines the left columns by the right column |
| Compile.MatAddInto | reinspiring/src/compile.rs:101-107 | entrywise modular addition by 64-bit sums, for every q up to 2^63; entries stay residues for all q |
| Compile.CompileNaive | reinspiring/src/compile.rs:109-146 | accepts exactly the matching shapes; the matrix is the sum of Neg(t_i) P_i whenever q <= 2^63 and no exponent product wraps harmfully |
| Compile.AccumulateNegPerm | reinspiring/src/compile.rs:148-164 | column c gains t X^(c g), under the same condition |
| Compile.SchoolbookNegacyclic | reinspiring/src/compile.rs:166-184 | folding the double-length product is the ring product |
| Compile.CompileNaiveFused | reinspiring/src/compile.rs:186-217 | the same matrix as the naive compiler, under the same condition |
| CompileWidth.SchoolbookFits | reinspiring/src/compile.rs:166-184 | no partial sum overflows the signed 128-bit buffer, for any two degree-d operands, if and only if d (q-1)^2 < 2^127 |
| CompileWidth.NaiveFusedFits | reinspiring/src/compile.rs:148-164 | the products the fused naive compiler forms, of any operand and a power of X, fit the signed 128-bit buffer if and only if (q-1)^2 < 2^127, whatever the degree |
| Compile.ScatterTerms | reinspiring/src/compile.rs:219-252 | the generating polynomial evaluates to the compiled columns |
| Compile.CompileFast | reinspiring/src/compile.rs:219-252 | accepts exactly matching lists of reduced polynomials of one power-of-two degree from 2 to 4096, q from 2 to 2^62 and odd exponents below 2d, and returns the same matrix |
| Compile.FastNarrow | reinspiring/src/compile.rs:225-240 | everything compile_fast accepts meets the width condition of the naive compilers |
| Compile.TiledTranspose | reinspiring/src/compile.rs:274-305 | the tiled shift and transpose of the power-of-two branch |
| Compile.CompileValidatedFft | reinspiring/src/compile.rs:274-305 | transform, shift by the column index, transpose |
| Compile.ShiftNegacyclic | reinspiring/src/compile.rs:307-320 | multiplication by X^shift |
| Compile.MatrixMeaning | reinspiring/src/compile.rs:109-138 | the matrix times y is the sum of t_i tau_i(y), for every y |
| KgPart.CompiledKgPart | reinspiring/src/compile.rs:14-24 | with the collapse exponents, the compiled matrices give the K_g part of the body chain |
| KgPart.CompiledUpload | inspiring/src/preprocess.rs:641-670 | an upload against a stored trace equals b plus the compiled K_g matrices plus the final K_h product |
| Ntt.AtIsValue | inspiring/src/automorph.rs:173-210 | a slot value is the polynomial's value at its root |
| Ntt.AtTau | inspiring/src/automorph.rs:253-283 | tau_t(p) at w^e is p at w^(t e) |
| Ntt.AtShift | inspiring/src/preprocess.rs:1412-1493 | X^k p at w^e is w^(k e) times p at w^e |
| NttInverse.BackwardForward | ipir-sp/src/modulus_switch.rs:296-302 | slot values determine a reduced polynomial: d^-1 times the weighted slot sums gives every coefficient back |
| Automorph.ValidatePermutation | inspiring/src/automorph.rs:136-149 | true exactly for bijections on 0..d |
| Automorph.TableApplies | inspiring/src/automorph.rs:253-283 | reading slots through a table is applying its automorphism |
| Automorph.ApplyTau | inspiring/src/automorph.rs:253-283 | the slot copy loop computes the transform of tau(p) |
| Automorph.RealisesBijection | inspiring/src/automorph.rs:119-134 | every table that realises an automorphism is a bijection, so the construction check cannot fail |
| Automorph.ComposeRealises | inspiring/src/automorph.rs:399-412 | a composition realises the product of the exponents |
| Automorph.TauGPowerTables | inspiring/src/automorph.rs:212-251 | table i realises 5^i on the left and -5^i on the right, stores that exponent and is a bijection |
| Automorph.MatchProbeSlots | inspiring/src/automorph.rs:414-439 | fails exactly on a colliding or missing pair of probe values, otherwise finds each pair's slot |
| Automorph.MatchedRealises | inspiring/src/automorph.rs:173-210 | slots matched through probes that do not collide form the automorphism's table |
| Automorph.AutomorphTable | inspiring/src/automorph.rs:173-210 | rejects even exponents; a table built from any probes that do not collide realises the exponent |
| AggregateNtt.AddShiftedTau | inspiring/src/preprocess.rs:1583-1621 | out gains X^shift tau_t(poly), with 64-bit sums and conditional subtraction instead of division, for every q up to 2^63 |
| AggregateNtt.AggregateSlot | inspiring/src/preprocess.rs:1526-1550 | one slot of the direct aggregate, for every q up to 2^63 |
| AggregateNtt.TransposedSlot | inspiring/src/preprocess.rs:1412-1493 | reading the transposed table at the automorphism's source slot gives the aggregate's slot value |
| AggregateNtt.TransposeSquare | inspiring/src/preprocess.rs:1495-1517 | the 32 by 32 tiles transpose the whole square |
| AggregateNtt.SlotTable | inspiring/src/preprocess.rs:1412-1493 | transform, transpose, transform, transpose |
| AggregateNtt.BuildAAgg | inspiring/src/preprocess.rs:1412-1493 | the two-pass aggregate is the transform of the direct one, slot for slot |
| Fused.AccumulateThree | inspiring/src/preprocess.rs:1020-1133 | the three-digit path adds the slot sums, each below 2^128 |
| Fused.AccumulateInline | inspiring/src/preprocess.rs:1020-1133 | the inline path adds the same slot sums |
| Fused.AccumulateDigitOuter | inspiring/src/preprocess.rs:1135-1174 | the digit-outer path adds the same slot sums |
| Fused.AccumulateTerm | inspiring/src/preprocess.rs:1020-1133 | whichever path is taken, only this query's lanes change and by the same amount |
| Fused.RangeSumJoin | inspiring/src/preprocess.rs:717-766 | adjacent ranges of steps add up, so the order of reduction does not matter |
| Fused.NoOverflow | inspiring/src/preprocess.rs:1000-1009 | under the headroom check no range of the d - 1 steps reaches 2^128 |
| Fused.FitsIsNeeded | inspiring/src/preprocess.rs:1000-1009 | when the check fails, reduced operands exist that do reach 2^128 |
| Fused.GuardNarrows | inspiring/src/preprocess.rs:1000-1004 | with four terms or more the check admits only moduli up to 2^63 |
| FusedRun.RunChunk | inspiring/src/preprocess.rs:717-766 | one task sums its steps for every query into its own zeroed accumulator |
| FusedRun.RunPlan | inspiring/src/preprocess.rs:717-766 | every split and join order gives the same sums without overflow |
| FusedRun.CollapseFused | inspiring/src/preprocess.rs:717-766 | body plus all products, reduced once, with one 64-bit sum per lane, for every q up to 2^63 |
| FusedRun.MultiplyPermuted | inspiring/src/preprocess.rs:1298-1342 | the product is the same whether reduced at the end or after every term, and neither accumulator reaches 2^128 |
| FusedRun.CollapseStepwise | inspiring/src/preprocess.rs:1176-1231 | the stepwise cascade computes the same values as the fused one |
| FusedRun.CollapseBatched | inspiring/src/preprocess.rs:824-953 | every query of a batch gets its own result and queries never mix, for q up to 2^63 or four terms and more |
| FusedPack.AtMul | inspiring/src/preprocess.rs:1020-1133 | pointwise products of slots are negacyclic products |
| FusedPack.BuildSchedule | inspiring/src/preprocess.rs:621-677 | left tables from last to first, right tables likewise, then K_h: each step stands for its recorded block |
| FusedPack.CollapsedIsChain | inspiring/src/preprocess.rs:621-766 | the fused slot values are the transform of the ring's body chain |
| FusedPack.CollapseUploaded | inspiring/src/preprocess.rs:621-677 | for every plan the result is the transform of the packed body, for q up to 2^63 or four terms and more |
| Widths.LaneSumExact | inspiring/src/preprocess.rs:750-765 | behind the headroom check, no lane sum overflows 64 bits, for any d - 1 steps, bodies and body polynomial, if and only if q <= 2^63 |
| Widths.LaneGuardExact | inspiring/src/preprocess.rs:635-639 | the headroom check rules out every lane overflow, for all moduli, if and only if (d-1) ell >= 4 |
| Widths.AcceptedLanesFit | inspiring/src/preprocess.rs:635-639 | accepted parameters of degree at least 4 that pass the check have q <= 2^63, so their lane sums never overflow |
| Widths.AcceptedLanesWrap | inspiring/src/preprocess.rs:635-639 | parameters of degree 2 that meet every check of the model of RlweParams::new and pass the headroom check have overflowing lane sums: q = 2^63 + 29 with two digits |
| Widths.HeadroomExact | inspiring/src/preprocess.rs:756-760 | behind the headroom check, the debug assertion on the accumulator holds for every schedule if and only if (d-1) ell (q-1)^2 + q < 2^128 |
| Widths.HeadroomGap | inspiring/src/preprocess.rs:756-760 | the check does not imply that: parameters of degree 4 with a 63-bit modulus pass it and have a schedule on which the assertion fails |
| Widths.ShiftedTauExact | inspiring/src/preprocess.rs:1583-1621 | no sum of the scatter overflows 64 bits, for any buffer, polynomial, exponent and shift, if and only if q <= 2^63; the scatter is reached only with several CRT moduli (inspiring/src/preprocess.rs:1420, 1540), never from single-modulus parameters |
| Widths.RemainderSumExact | inspiring/src/intermediate.rs:159-173 | the wrapping sum reduced modulo q is the modular sum for all residues if and only if q <= 2^63 |
| Lift.EnoughCapacity | reinspiring/src/lift_ntt.rs:335-370 | three primes exceed d q^2 for every supported degree and modulus and fit a signed 128-bit word |
| Lift.InversesHold | reinspiring/src/lift_ntt.rs:335-370 | the Garner inverses exist |
| Lift.InverseUnique | reinspiring/src/lift_ntt.rs:335-370 | and are the ones any inversion returns |
| Lift.MulIsConv | reinspiring/src/lift_ntt.rs:382-421 | products modulo any p are the integer negacyclic product reduced modulo p |
| Lift.ConvSumBound | reinspiring/src/lift_ntt.rs:523-582 | the integer sum of products is bounded by d B times the sum of the left bounds |
| Lift.Garner | reinspiring/src/lift_ntt.rs:382-421 | reconstruction returns the signed integer itself whenever twice its magnitude is below the capacity |
| Lift.ReconstructsTwo | reinspiring/src/lift_ntt.rs:312-333 | the two-prime form returns the integer modulo q, masked or by remainder |
| LiftOps.New | reinspiring/src/lift_ntt.rs:335-370 | accepts exactly power-of-two degrees from 2 to 4096 and q from 2 to 2^56; the capacity checks never fire |
| LiftOps.Multiply | reinspiring/src/lift_ntt.rs:382-421 | accepts exactly d coefficients in [0, q) on both sides and returns the ring product |
| LiftOps.PreparePublic | reinspiring/src/lift_ntt.rs:423-463 | two primes exactly where they cover the product, and whether two cover the whole sum |
| LiftOps.SumPrepared | reinspiring/src/lift_ntt.rs:465-521 | the sum of ring products, over prepared left operands |
| LiftOps.PrepareRightPrimes | reinspiring/src/lift_ntt.rs:181-211 | residues of every right operand modulo the first primes |
| LiftOps.PrepareBoundedRight | reinspiring/src/lift_ntt.rs:162-179 | the public bound picks two or three primes |
| LiftOps.BoundedRightCovers | reinspiring/src/lift_ntt.rs:162-179 | that count is enough for every left operand within the bound |
| LiftOps.SumCached | reinspiring/src/lift_ntt.rs:213-269 | the sum of ring products, per limb or over the whole sum |
| LiftOps.SumCachedTwo | reinspiring/src/lift_ntt.rs:271-310 | one reconstruction of the whole integer sum |
| LiftOps.SumBounded | reinspiring/src/lift_ntt.rs:156-310 | public operands within the bound against right operands prepared under it: sum_cached always accepts and returns the sum of ring products |
| LiftOps.PreparePublicDot | reinspiring/src/lift_ntt.rs:523-582 | accepted exactly when some prime count covers the bounded sum |
| LiftOps.EvalPublicDot | reinspiring/src/lift_ntt.rs:584-665 | accepts exactly operands within the bound and returns the sum of ring products |
| LiftOps.Sum | reinspiring/src/lift_ntt.rs:667-681 | the sum of independently reduced products |
| Conjugate.ReversalConjugates | reinspiring/src/lift_ntt.rs:140-149 | reversing bit-reversed evaluations is the automorphism X -> X^-1 |
| SimplePir.AddMod | ipir-sp/src/client.rs:809-821 | the branch-free 64-bit sum is always a residue, and it is the sum modulo q if and only if it does not wrap |
| SimplePir.SubMod | ipir-sp/src/client.rs:884-900 | the branch-free 64-bit difference is the difference modulo q |
| Widths.AddModExact | ipir-sp/src/client.rs:809-821 | add_mod is the modular sum, and its 64-bit sum never overflows, for all residues if and only if q <= 2^63 |
| Widths.EntryExact | ipir-sp/src/client.rs:752-787 | every query entry is Delta times the selector plus error minus mask if and only if Delta + q <= 2^64 |
| SimplePir.InversePolynomial | ipir-sp/src/client.rs:841-860 | the buffer holds a(X^-1) |
| SimplePir.EncryptedSelectionQuery | ipir-sp/src/client.rs:752-787 | on 64-bit words with Delta + q <= 2^64, every block is Delta times the selector plus error minus a(X^-1) s, which is what the column and retrieval theorems ask of a query |
| SimplePir.MultiplyQuery | simplepir-kernel/src/scalar.rs:17-44 | entry c is the inner product of the query and column c modulo q, and no step reaches 2^128 |
| MachineWords.StepFits | simplepir-kernel/src/scalar.rs:31-41 | a reduced accumulator plus a product of two words fits 128 bits |
| SimplePir.HintColumn | ipir-sp/src/server.rs:444-484 | the hint column is the sum of block products |
| SimplePir.MaskInner | ipir-sp/src/client.rs:862-877 | the query's masks against a column are the hint's inner product with the secret |
| SimplePir.ColumnPhase | ipir-sp/src/server.rs:444-520 | b + <hint column, s> is Delta db[target] plus the errors times the column, modulo q |
| HintLayout.GenerateHint | ipir-sp/src/server.rs:389-442 | the tiled writes store coefficient k of column c at row k |
| HintLayout.ExtractCrsBlock | ipir-sp/src/server.rs:1050-1073 | the rows of a CRS block are the block's hint columns |
| Retrieval.DecodeRecovers | ipir-sp/src/client.rs:955-966 | errors below half a step are removed, including across the wrap at q |
| Retrieval.DecodeNearest | ipir-sp/src/client.rs:955-966 | decoding picks the nearest multiple of the step, halves upwards, modulo p |
| Retrieval.HalfDeltaSuffices | ipir-sp/src/client.rs:955-966 | p at most Delta/2 leaves the room decoding needs |
| Retrieval.DecodeNeedsRoom | ipir-sp/src/client.rs:955-966 | without that room, plaintext 0 with error -1 decodes wrongly |
| Retrieval.DecodeExact | ipir-sp/src/client.rs:955-966 | every error below half a step is removed if and only if Delta <= 2 or q mod p is at most Delta minus its half |
| Retrieval.DecodeRows | ipir-sp/src/client.rs:942-981 | each coefficient of c2 + c1 s is rounded to a plaintext, with a 64-bit rounding sum that fits or wraps harmlessly |
| Widths.DecodeSumExact | ipir-sp/src/client.rs:955-966 | the rounding sum never overflows 64 bits if and only if q + Delta/2 <= 2^64 |
| Retrieval.DecodeWordIs | ipir-sp/src/client.rs:955-966 | the 64-bit sum decodes as the exact one when q + Delta/2 <= 2^64 and, even where it wraps, given the room decoding needs |
| Retrieval.RowRetrieved | ipir-sp/src/client.rs:586-632 | the whole pipeline returns the target entry of every column when the centred total error is below half a step |
| Budget.RetrievedWithinBudget | ipir-sp/src/client.rs:586-632 | bounds on query errors, key errors and rounding that satisfy one inequality on the parameters are enough for the target entry |
| Transport.SendQuery | ipir-sp/src/client.rs:335-342 | the rounded coefficients, packed at the query width |
| Transport.ReceiveQuery | ipir-sp/src/client.rs:345-371 | accepts exactly the right length and lifts whatever was sent |
| Transport.PublishC1 | ipir-sp/src/server.rs:985-996 | the mask row, exact, at the width of the modulus |
| Transport.RecoverC1 | ipir-sp/src/modulus_switch.rs:266-283 | a published mask row comes back unchanged |
| EndToEnd.MovedQuery | ipir-sp/src/client.rs:335-371 | a rounded query is a query with the movement added to its errors |
| EndToEnd.ServeBlock | ipir-sp/src/server.rs:523-566 | from the public masks, the uploaded bodies and the received query alone, hints, aggregate, trace, answers and fused packing give the packed batch, for q up to 2^63 or four terms and more |
| EndToEnd.RetrieveBlock | ipir-sp/src/client.rs:586-632 | on 64-bit words with q and q' below 2^63, with bodies generated by the client under public masks from which the server computes its own top rows, one written-out inequality gives the target row of the database |
| Bits.WriteBits | ipir-native-client/src/bits.rs:4-26 | the low bits of the value are ORed in at the offset, nothing else changes, bits past the end are dropped |
| Bits.ReadWord | ipir-native-client/src/bits.rs:29-59 | the value holds exactly the addressed bits, zero past the end |
| Bits.Encode | ipir-native-client/src/bits.rs:62-72 | the words lie end to end, zero padded, in the least number of bytes |
| Bits.Unpack | ipir-native-client/src/bits.rs:75-84 | as many whole words as the bytes hold |
| Bits.DecodesBack | ipir-native-client/src/wire.rs:15-30 | decoding an encoding gives the words back |
| Bits.ReEncodes | ipir-native-client/src/wire.rs:19-30 | unpacked words re-encode to the same bytes exactly when the padding is zero |
| Bits.EncodingUnique | ipir-native-client/src/wire.rs:15-17 | a word list has one encoding |
| Bits.Decode | ipir-native-client/src/wire.rs:19-30 | accepts exactly the canonical encodings of n words of the width and returns those words |
| Rounding.RescaleTrip | ipir-sp/src/modulus_switch.rs:10-27 | rescale on machine words, down and up, moves by D with 2 q' D <= q + q', for moduli below 2^63 |
| Rounding.RescaleIdempotent | ipir-sp/src/modulus_switch.rs:10-27 | rescaling a lifted residue gives it back for q' < q < 2^63 |
| Widths.CastExact | ipir-sp/src/modulus_switch.rs:10-27 | the signed 64-bit cast keeps the modulus if and only if q < 2^63 |
| Rounding.RescaleIs | ipir-sp/src/modulus_switch.rs:10-27 | below 2^63 rescale, with its casts, its wrapping subtraction and its signed remainders, is rounding to nearest |
| Rounding.RescaleNearest | ipir-sp/src/modulus_switch.rs:10-27 | rescale takes the centred residue to the nearest integer of the scaled value, halves away from zero, modulo the output modulus |
| Rounding.RescaleStepsFit | ipir-sp/src/modulus_switch.rs:10-27 | its 128-bit numerator and quotient sum never overflow, for any moduli |
| Widths.RescaleExact | ipir-sp/src/modulus_switch.rs:10-27 | rescale is rounding to nearest for every word and every output modulus if and only if q < 2^63; from there on 0 with output modulus 2^64 - 1 comes out wrong |
| Widths.RescaleZeroKept | ipir-sp/src/modulus_switch.rs:10-27 | the condition is about all output moduli together: at q = 2^64 - 1 every smaller output modulus still takes 0 to 0 |
| Rounding.CoeffTrip | ipir-sp/src/modulus_switch.rs:65-90 | down and up moves by D with 2 2^k D <= q + 2^k, and not at all at full width |
| Rounding.CoeffDownNearest | ipir-sp/src/modulus_switch.rs:65-74 | the transmitted coefficient is the nearest one, halves upwards, modulo 2^k |
| Rounding.CoeffUpNearest | ipir-sp/src/modulus_switch.rs:76-90 | the lifted coefficient is the nearest one, halves upwards, modulo q |
| Rounding.ModulusBitsLeast | ipir-sp/src/modulus_switch.rs:92-97 | the width of a modulus is the least one that holds every residue |
| Rounding.CoeffIdempotent | ipir-sp/src/modulus_switch.rs:65-90 | rounding a lifted query coefficient gives it back |
| Rounding.NativeTrip | ipir-native-client/src/wire.rs:32-63 | nearest rounding moves by at most half a unit |
| Rounding.NativeNearest | ipir-native-client/src/wire.rs:32-63 | down and up gives the nearest multiple of the unit, halves upwards, modulo q |
| Rounding.DitheredTrip | ipir-native-client/src/wire.rs:48-63 | dithered rounding moves by less than one unit |
| Rounding.DitheredExact | ipir-native-client/src/wire.rs:48-63 | up exactly when the low bits of the draw are below the dropped bits; only those bits of the draw matter |
| Rounding.DitheredCount | ipir-native-client/src/wire.rs:48-63 | of the 2^shift low parts of a draw exactly x mod 2^shift round up, all others down |
| Rounding.DitheredMean | ipir-native-client/src/wire.rs:48-63 | over all low parts the lifts add up to 2^shift x, less the wrap at q above the last multiple |
| Rounding.NativeIdempotent | ipir-native-client/src/wire.rs:32-63 | rounding a lifted coefficient gives it back, nearest or dithered |
| ResponseBody.SerializeBody | ipir-sp/src/modulus_switch.rs:286-312 | the coefficients as rescale computes them, packed at the modulus width |
| ResponseBody.RecoverBody | ipir-sp/src/modulus_switch.rs:315-323 | whatever was serialized comes back rescaled twice |
| ResponseBody.BodyError | ipir-sp/src/modulus_switch.rs:286-323 | each recovered coefficient is within the rounding bound of the one sent, for moduli below 2^63 |
| Sampling.UniformBelow | ipir-sp/src/sampling.rs:26-57 | returns the high word of the first accepted draw, below the bound |
| Sampling.ExactlyUniform | ipir-sp/src/sampling.rs:26-57 | each output has exactly 2^leading_zeros(bound) accepted draws, a contiguous range |
| Ingest.IngestRowMajor | ipir-sp/src/server.rs:849-889 | tiled staging stores what the naive scatter stores, leaves padding alone and finds the largest entry |
| Snapshot.ReadLeBits | nullifier-pir/src/encoding.rs:128-145 | one load, shift and mask read exactly the addressed bits |
| Snapshot.WriteLe | nullifier-pir/src/encoding.rs:147-158 | the field's bits are the value's and every neighbour is kept, also at the buffer's tail |
| Snapshot.EncodeItem | nullifier-pir/src/encoding.rs:59-74 | coefficient k holds bits 14 k to 14 k + 14 of the item |
| Snapshot.DecodeItem | nullifier-pir/src/encoding.rs:76-97 | every field holds its coefficient's low 14 bits |
| Snapshot.ItemRoundTrip | nullifier-pir/src/encoding.rs:59-97 | decoding gives the item back, zero padded |
| Snapshot.RecordAt | nullifier-pir/src/encoding.rs:99-126 | record i sits at its offset in its row |
| Snapshot.CoeffIter.constructor | nullifier-pir/src/snapshot.rs:118-131 | the iterator starts before the first row |
| Snapshot.CoeffIter.LoadNextRow | nullifier-pir/src/snapshot.rs:157-178 | the coefficients are those of the next row, with no bytes left over from the reused buffer |
| Snapshot.CoeffIter.Next | nullifier-pir/src/snapshot.rs:184-194 | 32768 coefficients per row for exactly the requested rows, in order |
| Snapshot.RecordRecovered | nullifier-pir/src/encoding.rs:76-126 | decoding a row gives each of its records back |
| Snapshot.PaddingRowsZero | nullifier-pir/src/snapshot.rs:157-178 | rows past the data decode to zero bytes |
| SnapshotLoad.Stream | nullifier-pir/src/snapshot.rs:181-194 | everything the iterator yields, row by row |
| SnapshotLoad.Load | ipir-sp/src/server.rs:849-889 | the tiled ingest of the stream stores each row column-major and leaves padding rows zero |
| SnapshotLoad.RecordTrip | nullifier-pir/src/snapshot.rs:118-194 | loading, reading back the stored row, decoding and extracting returns the file's record |
| NativeWire.NewKept | ipir-native-client/src/lib.rs:131-158 | a new profile meets the mode rules |
| NativeWire.BuildKept | ipir-native-client/src/lib.rs:161-277 | every accepted builder call keeps them |
| NativeWire.RunKept | ipir-native-client/src/lib.rs:161-277 | so does any sequence of calls |
| NativeWire.KeptReachable | ipir-native-client/src/lib.rs:131-277 | every profile that meets the rules is built by some sequence of calls |
| NativeWire.NewLimits | ipir-native-client/src/lib.rs:131-158 | exactly the accepted shapes and the default widths, in numbers |
| NativeWire.BuildLimits | ipir-native-client/src/lib.rs:64-277 | exactly the widths each builder call accepts and what it sets, in numbers |
| NativeWire.FrameRequest | ipir-native-client/src/lib.rs:404-453 | magic of the mode, identifier, key section of the mode and query |
| NativeWire.FramedLayout | ipir-native-client/src/lib.rs:404-453 | the byte layout in full, with its magics, offsets and widths in each of the three modes |
| NativeWire.ParseRequest | ipir-sp/src/native.rs:368-410 | accepts exactly framed requests and returns their words |
| NativeWire.SendReceive | ipir-sp/src/native.rs:368-410 | K_g arrives unchanged; K_h and the query arrive as the nearest multiples of their units, within half a unit, or for dithered queries as the draws decide, within one unit; K_h is unchanged at full width and absent in two-mask mode |
| NativeWire.FromMasksPublished | ipir-native-client/src/lib.rs:616-660 | accepted masks are at their publication width already |
| NativeWire.ToBytes | ipir-native-client/src/lib.rs:685-717 | the frame of the published state |
| NativeWire.PublishedLayout | ipir-native-client/src/lib.rs:685-717 | the byte layout in full: magic, identifier, first family before second, words that lift to the masks |
| NativeWire.FromBytes | ipir-native-client/src/lib.rs:719-770 | accepts exactly the frames of published states and returns the state that was written |
| NativeWire.PublishTrip | ipir-native-client/src/lib.rs:616-770 | under every reachable profile, masks are accepted exactly when they fit, and arrive as the nearest multiples of the publication unit, within half a unit |
| Prepared.EncodedLenIs | inspiring/src/prepared.rs:36-50 | the computed length is the length of the layout |
| Prepared.EncodedLenChecked | inspiring/src/prepared.rs:36-50 | the checked computation fails exactly when the length does not fit a 64-bit word |
| Prepared.Write | inspiring/src/prepared.rs:89-132 | succeeds exactly on well-shaped reduced states with permutation tables, and emits encoded_len bytes: the magic, the header words d, q, p, ell, bits, count of moduli, blocks and moduli, then the state |
| Prepared.WritableMeans | inspiring/src/prepared.rs:52-132 | what write accepts, in numbers: counts, lengths, the modulus of each row, permutations of 0..d |
| Prepared.WordBytes | inspiring/src/prepared.rs:14-21 | a word is eight bytes, least significant first |
| Prepared.BlockLayout | inspiring/src/prepared.rs:104-112 | word j of polynomial m of block b has its place: c1, then d - 1 digit columns |
| Prepared.ImageLayout | inspiring/src/prepared.rs:113-120 | the d - 1 key images follow the blocks |
| Prepared.TableLayout | inspiring/src/prepared.rs:121-131 | then each table, exponent before indices, to the end of the file |
| Prepared.Read | inspiring/src/prepared.rs:134-200 | accepts exactly the streams that spell a readable state, of exactly that length; an accepted stream has that magic and those header words |
| Prepared.SpellingUnique | inspiring/src/prepared.rs:89-200 | a state has one spelling |
| Prepared.ReadWrite | inspiring/src/prepared.rs:89-200 | any stream read accepts is written back byte for byte |
| Prepared.WriteRead | inspiring/src/prepared.rs:89-200 | a written state reads back if and only if its table exponents are odd and below 2d |
| Prepared.BuiltStateTrip | inspiring/src/prepared.rs:89-200 | reduced blocks with the tables tau_g_power_tables builds are written and read back unchanged |
| Prepared.EvenExponentWritable | inspiring/src/prepared.rs:89-132 | a gap in write's own check: exponent 0, which no table constructor yields, is written and then refused by read |

## Left out

- HTTP server, command line, downloads, metadata, digests and file access: input and output around the modelled logic.
- Foreign code: the NTT butterflies, Barrett reduction, the gadget builder, SHA-256 and ChaCha20, assumed as stated above.
- Gaussian sampling, statistical noise certificates, failure probabilities, `query_modulus_bits` (floating point) and security arguments: errors are arbitrary values here, bounded only where a budget is stated.
- Zeroization, redacted printing and constant-time style: not visible in a functional model.
- Chunked, AVX and GPU kernels, the memory-mapped prepared state and the native evaluator behind `respond`.
- `compile_fast_ring_fft` and `ring_fft_eval_pow2`: thin wrappers over the modelled transform.
- The reuse counter, profile shape checks and benchmark code: only easy members.
- Compile.CompileNaive: matrices are two-dimensional arrays, so the row-major index arithmetic is not captured.
- Compile.CompileNaiveFused: shares one validated loop over the terms with Compile.CompileNaive; only the added term differs, as in the source.
- Compile.SchoolbookNegacyclic: computes in unbounded integers; CompileWidth.SchoolbookFits says exactly when the source's 128-bit buffer cannot overflow.
- KeySwitch.SignedGadgetInvert: requires z/2 <= q, the assertion at inspiring/src/key_switching.rs:228; operands are polynomials of coefficients rather than single-row matrices.
- AggregateNtt.BuildAAgg: the flat tables are two-dimensional arrays; polynomials live in one CRT modulus, as the packing parameters require.
- FusedRun.RunPlan: a scheduler is any tree of contiguous chunks; threads and memory are not modelled.
- LiftOps.PreparePublic: stored transforms are represented by the residue polynomials they transform; the transforms of the auxiliary primes are part of the trusted boundary.
- SimplePir.EncryptedSelectionQuery: the errors are given as a list instead of drawn from the generator.
- HintLayout.ExtractCrsBlock: stated for reduced hints of the shape its two assertions demand, which GenerateHint produces.
- NativeWire.FromBytes: blocks of masks are flattened, and exact 64-bit words are modelled as 64-bit packing, which has the same bytes.
- NativeWire.KeptReachable: the limits on gadget size and digit width of the native parameters are not part of the profile; the rules hold without them.
- Transport.RecoverC1: the assertion that the body has the exact length of its rows is not modelled; the statement is about any bytes that encode a row.
- NativeWire.SendReceive: building keys from the received words is not part of this model.
- Retrieval.RowRetrieved: stated for any rounding polynomial; EndToEnd.RetrieveBlock joins it with the byte formats.
- EndToEnd.RetrieveBlock: one block of d columns; a response of several blocks repeats it per block. Seeds and their expansion are replaced by the masks and errors they yield, and the ring operations of the foreign library are exact. Moduli from 2^63 up are left out because the response rounding is wrong there (Widths.RescaleExact).
- Prepared.Write: blocks are flattened, so the per-block count of digit columns (which only matters when ell is 1) and the matrix row and column counts are not checked separately.
- Prepared.EncodedLenIs: about the exact length; Prepared.EncodedLenChecked adds the checked operations, with the two products the source leaves unchecked required to fit a word.
- Prepared.EvenExponentWritable: no table constructor of the crate yields such an exponent.
- Prepared.Read: a stream is its byte sequence; a short read and trailing bytes are one kind of failure, and the polynomials of the blocks form one list in file order.
- Sampling.UniformBelow: the generator is a finite list of draws, and running out of draws is a result of its own.
- Bits.Encode: width zero is excluded, for which the unpacker divides by zero.
