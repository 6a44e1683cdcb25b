# A verified model of the Quip chain's validation core

Quip is a Substrate chain whose miners submit solutions of Ising problems. This
project models, in Dafny, the deterministic code that decides what such a
submission is worth and what the chain pays for it, and proves what that code
promises over all inputs and all runs.

`dafny verify dfyconfig.toml` checks everything. One module per file:

| part | modules |
|---|---|
| diversity selection | `Hamming`, `Dispersion`, `Diversity`, `DiversityLimits`, `Selection` |
| bit-packed codec | `Radix`, `Bits`, `PuzzleSpec`, `Packed`, `Codes`, `PayloadSpec`, `BitFields`, `Codec`, `CanonicalPayload` |
| emission controller and faucet | `Schedule`, `Emission`, `EmissionPallet`, `EmissionRuns`, `EmissionOutcomes`, `Rebase`, `EmissionLedger`, `Faucet`, `FaucetPallet` |
| energy, topology, proof pipeline | `Sums`, `Energy`, `TopologyIndex`, `Validation`, `Ising`, `ProofValidation`, `Sorting`, `TopologyHash` |
| miner registry | `Descriptor`, `DescriptorLaws`, `Registry`, `RegistryPallet`, `RegistryRuns`, `RegistryOutcomes`, `Paging` |
| vocabulary | `Common` |

## Main results

- **Selection is a 2-approximation.** The Hamming distance that ignores a global
  spin flip is a pseudometric (`SymDistTriangle`). The cached greedy selectors
  compute exactly the naive farthest-point selection (`GreedySelect`,
  `SelectFromBest`), that selection is unique, and no other equally large choice
  of inputs is more than twice as spread out (`SelectDiverseGuarantee`,
  `SelectFromBestGuarantee`); for both the factor two is attained
  (`DiverseFactorTwoIsTight`, `AnchoredFactorTwoIsTight`).
- **Packing is radix conversion.** The OR loop spells, in base 256, the number
  whose base-2^b digits are the encoded values, and the reader extracts those
  digits (`PackIndexed`, `DecodeIndexed`). Unpacking a packed vector gives it
  back exactly when every spin is allowed (`RoundTrip`); re-packing an unpacked
  payload clears its unused bits, exactly for specs without repeated entries
  (`ReencodingIff`).
- **Emission never runs ahead of its curve.** For every chain, anchored or not,
  every clock sequence and every pattern of failed deposits a subnet's counter
  stays within its share of the entitlement (`IssuedWithinEntitlement`) and the
  total within the curve (`TotalWithinCurve`), a full
  accrual erases the difference between histories (`HistoriesAgree`, `CatchUp`),
  and every unit in every account is explained by a counter or an event
  (`RunConserves`, `ReachableFromGenesis`).
- **The faucet's fuse is one-way** and its budget is a hard cap, in every run of
  both pallets (`DisableIsFinal`, `FaucetWithinBudget`).
- **The topology hash preimage identifies a problem** up to the order of nodes,
  edges, endpoints and set entries, and nothing else (`PreimageIff`).
- **A registered topology can always be scored.** For any random stream and
  within the size limits nothing but the submitted payloads can make scoring fail
  (`ScoreSubmission`).
- **Registry deposits are exact** in every run of filing, replacing and clearing.
  A migration keeps them exact if and only if it can read every row that carries
  a deposit (`RunSound`, `MigrationReleasesAllIff`). The exact condition for the
  participant counter to count accounts is established (`CountIsIndexSizeIff`).

- **Every operation is also pinned down by itself**, without naming its own body:
  the distance as a count of positions (`SymDistIsCount`), every code by the value
  it stands for (`SetCode`, `IntegerCode`, `BigEndianDigits`), funding, minting,
  payouts and upgrades by exactly when they succeed and what they change
  (`AccrualSucceedsIff`, `MintFaucetIff`, `PayAmount`, `UpgradeRefusedIff`), energy
  term by term (`EnergyAddEdge`), deposits by base fee and price per byte of the
  concatenated texts (`StoredDepositIs`), and a refused descriptor by its first
  fault (`FirstComplaint`).

## Where the code and its documentation differ

- The v1-to-v2 migration of the registry means to return every deposit before it
  drops a row, and says that rows in the old layout can no longer be decoded. The
  draining iterator drops a row it cannot decode without handing it over, so its
  deposit stays reserved for good (`StrandedForever`) and filing again locks a
  second one (`UnreadableRowLocksTwice`). The deposits come back exactly for the
  rows that do decode (`MigrationPerAccount`, `MigrationReleasesAllIff`).
- The rounding sum in `round_div_u64` is not checked. It wraps when it leaves 64
  bits although both products fit, and exactly then a wrong score is returned
  (`RoundDivU64Iff`, `MeasureIsScoreIff`); `ScoreWraps` has a set of valid
  solutions on which it does.
- The diversity score is documented as reaching 1000; it never passes 500, and
  500 is reached (`DiversityAtMostHalf`, `DiversityHalfIsReached`). The model
  follows the code.
- A comment in the registry says that the participant counter never counts an
  account twice. An account that clears and files again while its qblock is
  still the candidate is counted twice (`RefilingCountsTwice`), and that is the
  only way (`CountIsIndexSizeIff`).
- After a rate change the schedule is re-anchored so that the new curve meets
  what was paid. It meets it within one second (`RebaseBrackets`), and the next
  accrual is idle for level counters (`RebaseMintsNothing`), but not for
  counters that a failed deposit left uneven (`UnevenHistoryMints`,
  `RebaseIdleIff`).
- `validate_solution` expects its energy call to succeed because the topology was
  validated before. It fires exactly on a problem with no nodes, which passes
  every earlier check, and on one with a partial sum outside 64 bits, for which
  it takes 2^32 terms (`ValidateSolution`).
- The 32-bit packing path does not check ranges: it packs what unpacking then
  refuses (`OutOfRangeIsPackedButRefused`). It panics exactly when the bit count
  saturates `usize` (`RoundTrip`).

## Reading the model

- Integers are unbounded; machine limits appear where the source checks, wraps or
  saturates. `USIZE_MAX` is either of the 32-bit and the 64-bit value, and nothing
  is assumed about which. The types `Spins` and `Nodes` carry the one limit that
  the language puts on every vector of 32-bit values: at most `isize::MAX` bytes.
- A call that can panic ends in an `Outcome`.
- Storage-changing code is a class whose methods are proved equal to a step
  function on its `View()`; the run theorems are about those step functions.
- The random generator is an arbitrary stream of 32-bit words. The currency is a
  map of balances that may refuse any deposit, transfer or reservation (the
  `accepts`, `deposits` and `allows` parameters). A transactional call changes
  everything or nothing. Clocks, rates, candidate ids, block numbers, payload
  hashes and the set of rows that decode in a migration are parameters.
- A pot is a constructor of the account type: distinct subnets have distinct
  pots and no key signs for one.
- `sort_unstable` is the sorted permutation, which `SortedUnique` shows to be
  unique. `Perbill::mul_floor` is floor(parts * x / 10^9).

## Model

| member | source | states |
|---|---|---|
| Hamming.EnsureValidSpins | crates/quantum-validation/src/validation.rs:30-40 | Ok exactly for vectors over {-1, +1}; otherwise the first offender's index and value |
| Hamming.SymmetricHammingValidated | crates/quantum-validation/src/diversity.rs:29-43 | the one-pass pair of counters gives the smaller of the distances to b and to its flip |
| Hamming.SymmetricHamming | crates/quantum-validation/src/diversity.rs:15-27 | succeeds exactly on equally long valid vectors with min(k, n - k) for k differing positions; length mismatch is reported before spins, first argument before second |
| Hamming.MismatchesCounts | crates/quantum-validation/src/diversity.rs:29-43 | the direct count is the number of differing positions |
| Hamming.SymDistCounts | crates/quantum-validation/src/diversity.rs:29-43 | the distance is the smaller of the numbers of positions that differ and that differ from the flip |
| Hamming.SymDistIsCount | crates/quantum-validation/src/diversity.rs:29-43 | on valid spins it is min(k, n - k) for k differing positions |
| Hamming.DirectPlusInverted | crates/quantum-validation/src/diversity.rs:29-43 | on valid spins the direct and inverted counts add up to the length |
| Hamming.HalfBound | crates/quantum-validation/src/diversity.rs:10-43 | the distance is at most half the length |
| Hamming.SymDistSymmetric | crates/quantum-validation/src/diversity.rs:10-43 | the distance is symmetric |
| Hamming.SymDistZero | crates/quantum-validation/src/diversity.rs:10-43 | zero exactly for vectors equal up to a global flip |
| Hamming.SymDistFlip | crates/quantum-validation/src/diversity.rs:10-43 | flipping either argument is invisible |
| Hamming.SymDistTriangle | crates/quantum-validation/src/diversity.rs:10-43 | the triangle inequality survives the sign symmetry |
| Dispersion.SpreadAtMostPair | crates/quantum-validation/src/diversity.rs:87-160 | the spread of a selection is a lower bound of every pairwise distance in it |
| Dispersion.SpreadAttained | crates/quantum-validation/src/diversity.rs:87-160 | and some pair attains it |
| Dispersion.FirstMaximumFarthest | crates/quantum-validation/src/diversity.rs:131-143 | the first maximum of a correct cache is the farthest point recomputed from scratch |
| Dispersion.GreedyUnique | crates/quantum-validation/src/diversity.rs:130-157 | two greedy runs from the same start agree, the shorter being a prefix of the longer |
| Dispersion.GreedyFactorTwo | crates/quantum-validation/src/diversity.rs:118-159 | any greedy run has at least half the spread of any equally large set (covering and pigeonhole) |
| Dispersion.DiverseShape | crates/quantum-validation/src/diversity.rs:87-160 | min(target, n) distinct positions of the input |
| Dispersion.DiverseUnique | crates/quantum-validation/src/diversity.rs:87-160 | one possible output per distance matrix |
| Dispersion.DiverseFactorTwo | crates/quantum-validation/src/diversity.rs:96-160 | factor-2 guarantee of `select_diverse` over any pseudometric |
| Dispersion.AnchoredShape | pallets/quantum-compute-mempool/src/selection.rs:9-36 | distinct positions including the anchor |
| Dispersion.AnchoredPrefix | pallets/quantum-compute-mempool/src/selection.rs:9-36 | a smaller target returns a prefix of a larger one |
| Dispersion.AnchoredFactorTwo | pallets/quantum-compute-mempool/src/selection.rs:9-36 | factor-2 guarantee of `select_from_best` for any anchor |
| Diversity.DistanceMatrixPseudometric | crates/quantum-validation/src/diversity.rs:162-173 | the matrix of pairwise distances is a pseudometric |
| Diversity.FlipKeepsDistances | crates/quantum-validation/src/diversity.rs:162-173 | flipping one submitted solution leaves the matrix unchanged |
| Diversity.EnsureValidSolutionInputs | crates/quantum-validation/src/diversity.rs:191-207 | Ok exactly when all vectors are valid and as long as the first; otherwise the first bad vector's length, or its first bad spin |
| Diversity.RoundDiv | crates/quantum-validation/src/fixed.rs:16-19 | within half a denominator of the exact quotient on both sides |
| Diversity.RoundDivU64Iff | crates/quantum-validation/src/fixed.rs:16-19 | the 64-bit form rounds correctly exactly when numerator + denominator / 2 does not wrap, and never exceeds the exact quotient |
| Diversity.MeasureIsScoreIff | crates/quantum-validation/src/diversity.rs:76-84 | the exact score comes out exactly when both products and the rounding sum fit 64 bits |
| Diversity.SumPairs | crates/quantum-validation/src/diversity.rs:64-75 | the nested loops add the distance of every unordered pair once and count the pairs |
| Diversity.CalculateDiversity | crates/quantum-validation/src/diversity.rs:55-85 | every outcome: zero below two solutions, the first input error, overflow of a product, a panic exactly when two or more vectors are all empty, else the machine's rounded average distance |
| Diversity.DiversityAtMostHalf | crates/quantum-validation/src/diversity.rs:45-85 | the score is at most 500 on valid non-empty vectors |
| Diversity.DiversityHalfIsReached | crates/quantum-validation/src/diversity.rs:45-85 | 500 is attained |
| Diversity.ScoreIsAverage | crates/quantum-validation/src/diversity.rs:55-85 | the score is the average distance over all ordered pairs relative to the length, in thousandths, to the nearest integer |
| Diversity.PairCountClosed | crates/quantum-validation/src/diversity.rs:64-75 | n (n - 1) / 2 pairs are counted |
| Diversity.DiversityPermutation | crates/quantum-validation/src/diversity.rs:55-85 | neither the score nor the returned 64-bit outcome depends on the order of the solutions |
| Diversity.DiversityFlip | crates/quantum-validation/src/diversity.rs:55-85 | nor on globally flipping any one of them |
| DiversityLimits.ScoreWraps | crates/quantum-validation/src/fixed.rs:16-19 | a set of valid solutions whose products fit 64 bits and whose returned score is wrong |
| Diversity.PairwiseDistances | crates/quantum-validation/src/diversity.rs:162-173 | the symmetric fill of the matrix holds every pairwise distance |
| Diversity.MostDistantPair | crates/quantum-validation/src/diversity.rs:175-189 | the lexicographically first pair at maximal distance |
| Diversity.InitialCache | crates/quantum-validation/src/diversity.rs:124-128 | the cache after the first pair equals the distances recomputed from scratch |
| Diversity.PickFarthest | crates/quantum-validation/src/diversity.rs:131-143 | the first unselected maximum of the cache; none only if everything is selected |
| Diversity.LowerCache | crates/quantum-validation/src/diversity.rs:145-153 | after adding an index the cache again equals a recomputation |
| Diversity.GreedySelect | crates/quantum-validation/src/diversity.rs:118-159 | the cached loop yields the naive greedy selection; its `break` is never taken |
| Diversity.SelectDiverse | crates/quantum-validation/src/diversity.rs:96-160 | every branch: empty, all positions in order, position 0 alone, invalid input, or the greedy selection |
| Diversity.SelectDiverseGuarantee | crates/quantum-validation/src/diversity.rs:96-160 | size min(target, n), distinct, and at least half the spread of any equally large choice |
| Diversity.SelectDiverseFlip | crates/quantum-validation/src/diversity.rs:96-160 | flipping one solution leaves the selected positions unchanged |
| Selection.FarthestCandidate | pallets/quantum-compute-mempool/src/selection.rs:19-31 | one round lowers every unselected distance and finds the first unselected maximum, or reports the first vector that cannot be compared; the `expect` holds |
| Selection.Round | pallets/quantum-compute-mempool/src/selection.rs:18-34 | one iteration extends the greedy selection and keeps the cache one member behind |
| Selection.GreedyRounds | pallets/quantum-compute-mempool/src/selection.rs:14-35 | the loop reaches its goal unless two vectors cannot be compared |
| Selection.SelectFromBest | pallets/quantum-compute-mempool/src/selection.rs:9-36 | succeeds exactly if at most one member is wanted or available or all vectors are valid; the anchored greedy selection, or the error of the first vector that cannot be compared with the anchor |
| Selection.SelectFromBestGuarantee | pallets/quantum-compute-mempool/src/selection.rs:9-36 | size, distinctness, anchor first, and the factor 2 |
| Selection.DiverseFactorTwoIsTight | crates/quantum-validation/src/diversity.rs:96-160 | five vectors where `select_diverse` has spread 1 and the optimum 2 |
| Selection.AnchoredFactorTwoIsTight | pallets/quantum-compute-mempool/src/selection.rs:9-36 | three vectors where `select_from_best` has spread 1 and the optimum 2 |
| PuzzleSpec.BitsForCountCeilLog2 | crates/quantum-validation/src/puzzle_spec.rs:230-235 | the width is ceil(log2 count) and at least one |
| PuzzleSpec.AcceptedIff | crates/quantum-validation/src/puzzle_spec.rs:72-112 | which specs are accepted, in terms of their entries and bounds |
| Codes.WidthIsLeast | crates/quantum-validation/src/puzzle_spec.rs:72-112 | an indexed width is the least that holds all codes, a continuous one 32 bits |
| Codes.RefusalReason | crates/quantum-validation/src/puzzle_spec.rs:72-112 | a refused spec is empty, or needs more than 8 bits (and says how many), or scales out of 32 bits, in that order |
| PuzzleSpec.EncodeThenDecode | crates/quantum-validation/src/packed.rs:148-175 | encoding succeeds exactly on allowed values, fits the width, and decodes back |
| PuzzleSpec.DecodeThenEncode | crates/quantum-validation/src/puzzle_spec.rs:119-150 | what decodes is allowed, and re-encodes to itself without repeated entries |
| Codes.SetCode | crates/quantum-validation/src/packed.rs:148-175 | raw k stands for the k-th entry and a value is coded by the first entry that holds it |
| Codes.IntegerCode | crates/quantum-validation/src/packed.rs:148-175 | a value of an integer range is coded by the number of allowed values below it |
| Codes.IntegerDecode | crates/quantum-validation/src/puzzle_spec.rs:119-150 | code 0 is the lower bound and each further code one unit more, up to the upper bound |
| Codes.ContinuousCode | crates/quantum-validation/src/packed.rs:148-175 | a continuous value is its own code modulo 2^32 |
| Codes.Refusals | crates/quantum-validation/src/puzzle_spec.rs:119-150 | a refused code or value is named in the error |
| Codes.ReinterpretModulo | crates/quantum-validation/src/packed.rs:121-128 | casting between i32 and u32 keeps the value modulo 2^32 |
| Codes.BigEndianDigits | crates/quantum-validation/src/packed.rs:121-128 | the first byte of a word is the most significant |
| Codes.FromBigEndianDigits | crates/quantum-validation/src/packed.rs:88-107 | and is read as such |
| PuzzleSpec.SampleAllowed | crates/quantum-validation/src/puzzle_spec.rs:155-192 | every random word gives an allowed value |
| PuzzleSpec.SampleReachesAll | crates/quantum-validation/src/puzzle_spec.rs:155-192 | every allowed value is given by some word |
| Codes.SampleIsDecode | crates/quantum-validation/src/puzzle_spec.rs:155-192 | an indexed sample is the value coded by the word's remainder |
| Codes.SampleCounts | crates/quantum-validation/src/puzzle_spec.rs:155-192 | a continuous sample is the minimum for word 0, one more for each further word, and starts over after the maximum |
| Packed.ByteLenExact | crates/quantum-validation/src/packed.rs:23-29 | the length is ceil(n * b / 8) unless 32-bit values saturate the bit count, for 32-bit and 64-bit `usize` |
| Packed.ByteLenSaturated | crates/quantum-validation/src/packed.rs:23-29 | a saturated length is too short for the values |
| Codes.ByteLenLeast | crates/quantum-validation/src/packed.rs:23-29 | the bytes are as few as hold all bits |
| Codes.EncodeAllMeaning | crates/quantum-validation/src/packed.rs:130-146 | encoding is element by element, the error that of the first element without a code |
| Codes.DecodeAllMeaning | crates/quantum-validation/src/packed.rs:57-107 | decoding is element by element, the error that of the first code without a value |
| PayloadSpec.UnpackRefusesLength | crates/quantum-validation/src/packed.rs:36-55 | any other length is refused with the expected and the actual one |
| PayloadSpec.UnpackExact | crates/quantum-validation/src/packed.rs:36-55 | the exact length is decoded word by word or field by field |
| PayloadSpec.UnpacksFrom | crates/quantum-validation/src/packed.rs:36-55 | an accepted payload has the exact length, and its words or fields decode to the values |
| BitFields.OrStep | crates/quantum-validation/src/packed.rs:130-144 | one OR across a byte boundary adds raw * 2^offset, stays in bounds and within bytes |
| BitFields.ReadStep | crates/quantum-validation/src/packed.rs:70-84 | one shift-and-mask over two bytes reads exactly the i-th field |
| Bits.OrBit | crates/quantum-validation/src/packed.rs:130-144 | OR works bit by bit |
| Bits.AndBit | crates/quantum-validation/src/packed.rs:70-84 | AND works bit by bit |
| Codec.OrAt | crates/quantum-validation/src/packed.rs:136-143 | the buffer, read as a little-endian number, gains raw * 2^offset |
| Codec.PackOne | crates/quantum-validation/src/packed.rs:130-144 | one iteration extends the number by the next encoded spin or reports its error |
| Codec.PackIndexed | crates/quantum-validation/src/packed.rs:130-146 | the loop spells the encoded values in base 256, or reports the first bad spin |
| Codec.PackContinuous | crates/quantum-validation/src/packed.rs:121-128 | 32-bit big-endian words, unchecked; a panic exactly when the buffer is too short |
| Codec.PackSolution | crates/quantum-validation/src/packed.rs:113-146 | both paths, every error and the panic |
| Codec.DecodeIndexed | crates/quantum-validation/src/packed.rs:57-86 | decodes the base-2^b digits of the number the payload spells |
| Codec.DecodeContinuous | crates/quantum-validation/src/packed.rs:88-107 | decodes the big-endian words; a short payload is refused once its words run out |
| Codec.UnpackSolution | crates/quantum-validation/src/packed.rs:36-55 | for any payload and count: spec error, length mismatch, a panic when no such vector can exist, then the decoded values or the first bad one |
| Codec.RespellFields | crates/quantum-validation/src/packed.rs:130-146 | the buffer equals the sum of raw_i * 2^(b i) and its fields are the encoded values again |
| Codec.RoundTrip | crates/quantum-validation/src/packed.rs:36-146 | when packing panics and when it succeeds, and that unpacking the result succeeds exactly when all spins are allowed and then returns them |
| Codec.OutOfRangeIsPackedButRefused | crates/quantum-validation/src/packed.rs:121-128 | a spin outside the range packs, and unpacking then reports an error |
| CanonicalPayload.ClearUnusedBytes | crates/quantum-validation/src/packed.rs:57-86 | clearing the unused bits only masks the last byte |
| CanonicalPayload.CanonicalReencoding | crates/quantum-validation/src/packed.rs:57-146 | re-packing an accepted payload gives it back with its unused bits cleared |
| CanonicalPayload.DuplicateBreaksReencoding | crates/quantum-validation/src/packed.rs:148-175 | with any repeated set entry some payload is not reproduced |
| CanonicalPayload.ReencodingIff | crates/quantum-validation/src/packed.rs:57-175 | canonical re-encoding holds for all payloads exactly when the spec has no repeated entry |
| CanonicalPayload.DecodeEqualIff | crates/quantum-validation/src/packed.rs:57-107 | two accepted payloads decode alike exactly when they agree on the used bits |
| Schedule.EntitlementIsCurve | pallets/emission-controller/src/lib.rs:387-393 | splitting off whole years equals floor(annual * elapsed / year) and, if a year fits, fails only if the curve overflows |
| Schedule.CurveMono | pallets/emission-controller/src/lib.rs:387-393 | the curve is monotone |
| EmissionOutcomes.CurveIsFloor | pallets/emission-controller/src/lib.rs:387-393 | 365 days yield the annual amount, and the curve rounds down |
| EmissionOutcomes.ShareIsFloor | pallets/emission-controller/src/lib.rs:404-407 | a share is in parts per billion, rounded down |
| Schedule.ValidRoutes | pallets/emission-controller/src/lib.rs:347-362 | accepts exactly bounded lists of distinct subnets with non-zero shares adding to one, or none while disabled |
| Schedule.SharesNeverExceed | pallets/emission-controller/src/lib.rs:347-418 | floored shares of k accepted routes sum to the total less at most k - 1 |
| EmissionPallet.Controller.constructor | pallets/emission-controller/src/lib.rs:174-195 | genesis: counters empty, version current, under the asserted conditions; a state the run theorems start from when issuance is the sum of balances |
| EmissionPallet.Controller.DepositExact | pallets/emission-controller/src/lib.rs:448-457 | deposits in full or changes nothing |
| EmissionPallet.Controller.FundSubnet | pallets/emission-controller/src/lib.rs:419-432 | counters, pot and issuance move together or not at all |
| EmissionPallet.Controller.Accrue | pallets/emission-controller/src/lib.rs:394-418 | the loop performs the accrual step whose runs are characterised below |
| EmissionPallet.Controller.MintFaucet | pallets/emission-controller/src/lib.rs:433-447 | mints within the budget or changes nothing |
| EmissionPallet.Controller.Pay | pallets/emission-controller/src/lib.rs:61-94 | pays from the pot down to the minimum balance, or records why not |
| EmissionPallet.Controller.OnRuntimeUpgrade | pallets/emission-controller/src/lib.rs:242-264 | writes the rebased anchor and the version, or nothing |
| EmissionRuns.RoutesAt | pallets/emission-controller/src/lib.rs:404-417 | a visited subnet ends at the larger of counter and target, or keeps its counter with a recorded failure |
| EmissionOutcomes.FundSubnetIff | pallets/emission-controller/src/lib.rs:419-432 | funding succeeds exactly when the currency takes it and all three sums fit 128 bits; otherwise which error |
| EmissionOutcomes.FundSubnetEffect | pallets/emission-controller/src/lib.rs:419-432 | the pot, the subnet's counter, the scheduled total and the issuance grow by the amount, nothing else changes |
| EmissionOutcomes.SettleOutcome | pallets/emission-controller/src/lib.rs:404-417 | a short route leads to one event with subnet and amount, a failure exactly when funding fails |
| EmissionOutcomes.AccrualSucceedsIff | pallets/emission-controller/src/lib.rs:394-418 | an accrual records no failure exactly when every short route's deposit is taken and everything fits; then all counters reach their shares and the totals grow by what was due |
| EmissionOutcomes.DisabledIsFrozen | pallets/emission-controller/src/lib.rs:394-403 | no steady run moves a disabled schedule |
| EmissionOutcomes.InertAccrual | pallets/emission-controller/src/lib.rs:394-403 | nor does a zero clock or an overflowing entitlement |
| EmissionOutcomes.MintFaucetIff | pallets/emission-controller/src/lib.rs:433-447 | a mint succeeds exactly for a positive amount within budget that is taken and fits; otherwise the first reason |
| EmissionOutcomes.MintFaucetEffect | pallets/emission-controller/src/lib.rs:433-447 | the recipient, the faucet counter and the issuance grow by the amount, nothing else changes |
| EmissionOutcomes.PayAmount | pallets/emission-controller/src/lib.rs:61-94 | the amount paid and the event recorded, in every case |
| EmissionOutcomes.UpgradeKeepsAnchor | pallets/emission-controller/src/lib.rs:365-385 | with nothing to rebase the anchor stays and the version is set |
| EmissionOutcomes.UpgradeRefusedIff | pallets/emission-controller/src/lib.rs:242-264 | exactly when an upgrade changes nothing |
| EmissionRuns.IssuedWithinEntitlement | pallets/emission-controller/src/lib.rs:387-432 | over any clocks and failures, from any chain, a counter never decreases, stays put without an anchor, and never passes its share at the largest clock |
| EmissionRuns.AnchorIsFirstClock | pallets/emission-controller/src/lib.rs:394-403 | over any run an unanchored chain is anchored at the first non-zero clock it saw while enabled, and keeps that anchor |
| EmissionRuns.TotalWithinCurve | pallets/emission-controller/src/lib.rs:387-432 | from empty counters everything scheduled stays within the curve at the largest clock, and is zero without an anchor |
| EmissionRuns.FullAccrualReaches | pallets/emission-controller/src/lib.rs:394-418 | an accrual without failures brings every counter to its target |
| EmissionRuns.FullAccrualAfterRun | pallets/emission-controller/src/lib.rs:394-418 | after any history from any chain a full accrual at the largest clock leaves every counter at its share of the curve |
| EmissionRuns.HistoriesAgree | pallets/emission-controller/src/lib.rs:394-418 | two histories with the same anchor end with the same counters after a full accrual at the same latest clock |
| EmissionRuns.CatchUp | pallets/emission-controller/src/lib.rs:394-418 | in particular with the counters of one single call there |
| EmissionRuns.RunCountersAdd | pallets/emission-controller/src/lib.rs:317-337 | `ScheduledIssued` is the sum of the subnet counters in every reachable state |
| Rebase.PaidIsBracketed | pallets/emission-controller/src/lib.rs:365-385 | the paid total lies between the curve at the paid seconds and one second later |
| Rebase.RebaseEffect | pallets/emission-controller/src/lib.rs:242-264 | only anchor and version change; the curve then stands at the paid seconds, clamped to the clock |
| Rebase.RebaseBrackets | pallets/emission-controller/src/lib.rs:365-385 | unclamped, entitlement at the clock <= issued <= entitlement one second later |
| Rebase.RebaseMintsNothing | pallets/emission-controller/src/lib.rs:242-418 | with level counters an accrual at the clock of the upgrade changes nothing |
| Rebase.AccrueIdleIff | pallets/emission-controller/src/lib.rs:394-418 | an accrual changes nothing exactly when no route is short of its share |
| Rebase.RebaseIdleIff | pallets/emission-controller/src/lib.rs:242-418 | the exact condition on the counters before the upgrade for the accrual after it to mint nothing |
| Rebase.UnevenHistoryMints | pallets/emission-controller/src/lib.rs:242-418 | a run from genesis with one failed deposit, an upgrade, and an accrual at its clock that mints 50 units |
| Rebase.UpgradeOnce | pallets/emission-controller/src/lib.rs:242-264 | a second upgrade call changes nothing |
| EmissionLedger.RunConserves | pallets/emission-controller/src/lib.rs:61-94 | in every run issuance is genesis plus the two counters and backed by balances, every account's balance is explained by events and counters, the faucet stays in budget |
| EmissionLedger.ReachableFromGenesis | pallets/emission-controller/src/lib.rs:174-195 | in every chain reached from genesis issuance is the initial amount plus the two counters, backed by balances, and the subnet counters add up |
| EmissionLedger.PotBalanceFromGenesis | pallets/emission-controller/src/lib.rs:419-457 | a pot's balance plus payouts equals its counter plus outside credits |
| EmissionLedger.HolderBalance | pallets/emission-controller/src/lib.rs:433-457 | an ordinary account has what it started with plus what it received less what it sent |
| EmissionLedger.PayoutIsConfined | pallets/emission-controller/src/lib.rs:61-94 | a payout debits one pot, leaves the minimum, mints nothing and pays as much as it may |
| EmissionLedger.OnlyPayoutsDebitPots | pallets/emission-controller/src/lib.rs:61-94 | no other step, and no payout of another subnet, debits a pot |
| Faucet.FuseStep | pallets/faucet-ops/src/lib.rs:133-219 | no step enters Enabled, un-blows an explicit fuse, or mints unless enabled, authorised and within budget |
| Faucet.MintIff | pallets/faucet-ops/src/lib.rs:180-194 | exactly when a mint succeeds, and the error order |
| Faucet.SetAuthorityRotates | pallets/faucet-ops/src/lib.rs:198-206 | only the foundation changes the key, and afterwards exactly the new key may mint |
| Faucet.DisableIff | pallets/faucet-ops/src/lib.rs:210-219 | exactly when the fuse can be blown, and that it can be once |
| Faucet.LegacyUpgradeCloses | pallets/faucet-ops/src/lib.rs:133-147 | what the upgrade makes of legacy storage, and that it is idempotent |
| Faucet.ClosedStaysClosed | pallets/faucet-ops/src/lib.rs:133-219 | no run opens a closed faucet or mints from it |
| Faucet.FaucetWithinBudget | pallets/emission-controller/src/lib.rs:433-447 | faucet issuance only grows and never passes the fixed budget |
| Faucet.DisableIsFinal | pallets/faucet-ops/src/lib.rs:210-219 | after a successful disable, faucet issuance is constant whatever follows |
| FaucetPallet.FaucetOps.constructor | pallets/faucet-ops/src/lib.rs:101-111 | genesis state; an enabled faucet needs a key |
| FaucetPallet.FaucetOps.Mint | pallets/faucet-ops/src/lib.rs:180-194 | origin first, then state, then the controller's mint; failure changes nothing |
| FaucetPallet.FaucetOps.SetAuthority | pallets/faucet-ops/src/lib.rs:198-206 | only the foundation replaces the key |
| FaucetPallet.FaucetOps.Disable | pallets/faucet-ops/src/lib.rs:210-219 | blows the fuse from Enabled only |
| FaucetPallet.FaucetOps.OnRuntimeUpgrade | pallets/faucet-ops/src/lib.rs:133-147 | closes legacy storage without a key, keeps an explicit fuse, once |
| Energy.EnergyRelabelled | crates/quantum-validation/src/energy.rs:48-81 | energy depends only on the multisets of sites and of undirected couplings |
| Energy.EnergyFlip | crates/quantum-validation/src/energy.rs:48-81 | flipping spin i changes the energy by -2 s_i times its local field without self-loops |
| Energy.EnergyGlobalFlip | crates/quantum-validation/src/energy.rs:48-81 | flipping all spins equals negating all fields |
| Energy.EnergyAddNode | crates/quantum-validation/src/energy.rs:58-64 | nothing has energy 0 and a node adds its field times its spin |
| Energy.EnergyAddEdge | crates/quantum-validation/src/energy.rs:66-78 | an edge adds its coupling times the spins at its ends |
| Energy.EnergyFits | crates/quantum-validation/src/energy.rs:48-81 | fewer than 2^32 nodes and edges stay inside i64 |
| TopologyIndex.BuildIndex | crates/quantum-validation/src/validation.rs:54-72 | Ok exactly for distinct nodes and known endpoints; otherwise the first offender, nodes first |
| TopologyIndex.IndexNodes | crates/quantum-validation/src/validation.rs:54-62 | the index of distinct nodes, or the first repeated one |
| TopologyIndex.LookupIsScan | crates/quantum-validation/src/validation.rs:78-80 | a lookup finds what a linear scan finds |
| TopologyIndex.IndexSize | crates/quantum-validation/src/validation.rs:74-76 | the index is as large as the node list, which is distinct |
| TopologyIndex.SumFields | crates/quantum-validation/src/energy.rs:58-64 | the field loop's sum; overflow exactly when a partial sum leaves 64 bits |
| TopologyIndex.SumCouplings | crates/quantum-validation/src/energy.rs:66-78 | the coupling loop's sum by lookup equals the sum by scan; otherwise what stops it first, an unknown endpoint or a partial sum outside 64 bits |
| TopologyIndex.SmallSumsFit | crates/quantum-validation/src/energy.rs:58-78 | fewer than 2^32 terms have no partial sum outside 64 bits |
| TopologyIndex.AddCoupling | crates/quantum-validation/src/energy.rs:66-78 | one iteration: unknown endpoints first, overflow exactly when the next partial sum does not fit |
| TopologyIndex.EnergyIndexed | crates/quantum-validation/src/energy.rs:48-81 | the indexed energy equals the linear-scan definition; otherwise the shape error, the first bad spin, the first unknown endpoint or overflow |
| TopologyIndex.EnergyOfSolution | crates/quantum-validation/src/energy.rs:32-42 | the result on every input: shape, first repeated node, first unknown endpoint, first bad spin, overflow exactly when a partial sum does not fit, else the energy |
| Validation.ValidateTopologyConsistency | crates/quantum-validation/src/validation.rs:104-179 | no complaint exactly for a consistent problem |
| Validation.IsSatisfied | crates/quantum-validation/src/validation.rs:242-256 | whether a coupling lowers the energy; the position lookups succeed |
| Validation.CountSatisfied | crates/quantum-validation/src/validation.rs:241-257 | the number of edges whose contribution is negative |
| Validation.ValidateSolution | crates/quantum-validation/src/validation.rs:190-266 | the report on sound problems with its rate on 64-bit words, and that an `expect` fires exactly on the empty problem or a partial sum outside 64 bits |
| Ising.SampleMany | crates/quantum-validation/src/ising.rs:93-101 | consecutive samples of one stream; never fails for an accepted spec |
| Ising.GenerateModel | crates/quantum-validation/src/ising.rs:64-106 | succeeds exactly for non-empty indexed nodes and accepted specs, for every stream; fields then couplings, all allowed |
| ProofValidation.SpinSigns | crates/quantum-validation/src/packed.rs:182-192 | one spin per value with the value's sign, or the first zero |
| ProofValidation.PayloadErrorKinds | pallets/quantum-pow/src/lib.rs:1454-1466 | an unreadable payload blames the topology exactly when the spin spec is not accepted |
| ProofValidation.PayloadErrorMeaning | pallets/quantum-pow/src/lib.rs:1454-1466 | with an accepted spec: wrong length, a field that stands for no value, or a zero |
| ProofValidation.DecodeOne | pallets/quantum-pow/src/lib.rs:1454-1467 | one payload unpacked and reduced to signs, or its error |
| ProofValidation.DecodeSolutions | pallets/quantum-pow/src/lib.rs:1450-1468 | succeeds exactly when every payload unpacks without a zero; otherwise the error of the first that does not |
| ProofValidation.ScoreAll | pallets/quantum-pow/src/lib.rs:1470-1489 | every energy exactly when each solution can be scored, else the topology error |
| ProofValidation.BestEnergy | pallets/quantum-pow/src/lib.rs:1491-1507 | the least of all energies when one beats the limit |
| ProofValidation.SelectAndMeasure | pallets/quantum-pow/src/lib.rs:1508-1524 | the diverse selection of the pool and what measuring it gives |
| ProofValidation.MeasuredScore | pallets/quantum-pow/src/lib.rs:1508-1524 | that score is at most 500 whatever the arithmetic does, fails only by overflow, and is exact within the size limit |
| ProofValidation.Judge | pallets/quantum-pow/src/lib.rs:1491-1530 | insufficient energy exactly when none beats the limit, else the report, or the error for a measurement that leaves 64 bits |
| ProofValidation.ValidateProof | pallets/quantum-pow/src/lib.rs:1442-1531 | the first unreadable payload decides, then whether all solutions can be scored, then the energies; on sound problems within the size limit nothing else rejects |
| ProofValidation.ScoreSubmission | pallets/quantum-pow/src/lib.rs:1092-1110 | index, model and score for every stream: an unregistered topology, an unreadable payload, or the verdict of the energies in the sampled problem |
| Sorting.SortCorrect | pallets/quantum-pow/src/topology.rs:20-27 | the sorted permutation |
| Sorting.SortedUnique | pallets/quantum-pow/src/topology.rs:20-27 | is determined by the multiset, so the sorting algorithm does not matter |
| TopologyHash.CanonicalBytes | crates/quantum-validation/src/puzzle_spec.rs:198-227 | the fast path for sorted sets gives what sorting gives |
| TopologyHash.CanonicalFormBytes | crates/quantum-validation/src/puzzle_spec.rs:198-227 | tag byte 0, 1 or 2, then the entries in ascending order or the lower and the upper bound |
| TopologyHash.UndirectedIs | pallets/quantum-pow/src/topology.rs:23-26 | each pair is kept or reversed, the smaller endpoint first |
| TopologyHash.CanonicalFormIff | crates/quantum-validation/src/puzzle_spec.rs:198-227 | equal bytes exactly for the same variant with the same multiset or bounds |
| TopologyHash.HashPreimage | pallets/quantum-pow/src/topology.rs:13-39 | the hashed tuple: ascending nodes, ascending pairs with the smaller endpoint first, and the canonical specs of fields, couplings and spins in that order |
| TopologyHash.PreimageIff | pallets/quantum-pow/src/topology.rs:13-39 | equal preimages exactly for topologies that differ only in ordering |
| Descriptor.InputAcceptedIff | pallets/miner-registry/src/lib.rs:671-745 | the chain of checks refuses exactly the inputs that are not well formed |
| DescriptorLaws.FirstComplaint | pallets/miner-registry/src/lib.rs:671-742 | a complaint names something wrong, and nothing checked earlier is wrong |
| DescriptorLaws.FirstMinerComplaint | pallets/miner-registry/src/lib.rs:695-709 | the first miner with something blank, and the first blank on it |
| DescriptorLaws.FirstGpuComplaint | pallets/miner-registry/src/lib.rs:711-727 | the first GPU with a bad entry, and the first bad entry on it |
| Descriptor.DescriptorPayloadLen | pallets/miner-registry/src/lib.rs:869-895 | the saturating loops count the body's bytes, saturated once |
| Descriptor.SystemInfoPayloadLen | pallets/miner-registry/src/lib.rs:897-916 | the same for the system survey |
| Descriptor.RuntimePayloadLen | pallets/miner-registry/src/lib.rs:918-930 | the same for the runtime block |
| Descriptor.PayloadLen | pallets/miner-registry/src/lib.rs:796-821 | piecewise saturation loses nothing against saturating the total |
| DescriptorLaws.BytesAreAllTexts | pallets/miner-registry/src/lib.rs:869-930 | the counted bytes are the length of all texts put together |
| DescriptorLaws.DepositLaws | pallets/miner-registry/src/lib.rs:932-937 | zero bytes cost the base fee, each further byte the fee per byte, up to the largest balance |
| DescriptorLaws.StoredDepositIs | pallets/miner-registry/src/lib.rs:744-842 | a descriptor costs base + bytes * perByte, bytes capped at 32 bits and the sum at 128 |
| Descriptor.ValidateAndStore | pallets/miner-registry/src/lib.rs:662-842 | the first complaint, or for exactly the well-formed inputs the stored form with the deposit its bytes call for |
| RegistryPallet.MinerRegistry.constructor | pallets/miner-registry/src/lib.rs:444-474 | the empty registry, whose reserves and deposits agree |
| RegistryPallet.MinerRegistry.SetDescriptor | pallets/miner-registry/src/lib.rs:536-552 | validation, then replacement; failure changes nothing |
| RegistryPallet.MinerRegistry.ReplaceDescriptor | pallets/miner-registry/src/lib.rs:844-866 | reserves or returns the difference and stores with the payload hash, or changes nothing; no remainder where reserves cover deposits |
| RegistryPallet.MinerRegistry.ClearDescriptor | pallets/miner-registry/src/lib.rs:558-572 | removes descriptor and latest participation, returns the deposit without remainder, keeps the index |
| RegistryPallet.MinerRegistry.Participate | pallets/miner-registry/src/lib.rs:579-624 | the three refusals in order, else record, index and saturating counter |
| RegistryOutcomes.SetDescriptorIff | pallets/miner-registry/src/lib.rs:536-552 | a filing succeeds exactly when well formed and the added price can be reserved |
| RegistryOutcomes.SetDescriptorEffect | pallets/miner-registry/src/lib.rs:844-866 | what is stored, and that exactly the price difference moves between free and reserved |
| RegistryOutcomes.SetDescriptorElsewhere | pallets/miner-registry/src/lib.rs:844-866 | no other account and nothing about participation changes |
| RegistryOutcomes.ClearDescriptorEffect | pallets/miner-registry/src/lib.rs:558-572 | exactly when clearing succeeds, and all it changes |
| RegistryOutcomes.ParticipateIff | pallets/miner-registry/src/lib.rs:579-606 | exactly when participation is accepted, and the error order |
| RegistryPallet.MinerRegistry.DrainNext | pallets/miner-registry/src/migrations.rs:35-44 | one row leaves the map; its deposit is returned if the row decodes, without remainder |
| RegistryPallet.MinerRegistry.MigrateToV2 | pallets/miner-registry/src/migrations.rs:28-46 | at version 1 drains every row once in some order, readable or not, and bumps the version; otherwise nothing |
| RegistryRuns.RunCovered | pallets/miner-registry/src/lib.rs:558-572 | reserves cover deposits in every state of every run, so no `unreserve` leaves a remainder |
| RegistryRuns.RunAccount | pallets/miner-registry/src/migrations.rs:28-46 | over every run an account's funds are conserved and its reserve exceeds its deposit by exactly what migrations could not read |
| RegistryRuns.MigrationPerAccount | pallets/miner-registry/src/migrations.rs:28-46 | an account gets its deposit back exactly if its row decodes and keeps it reserved otherwise |
| RegistryRuns.MigrationReleasesAllIff | pallets/miner-registry/src/migrations.rs:28-46 | no descriptor is left, and no reserve exactly when every row with a deposit decodes |
| RegistryRuns.MigrationIsGated | pallets/miner-registry/src/migrations.rs:63-72 | at any other version the migration does nothing |
| RegistryRuns.StrandedForever | pallets/miner-registry/src/migrations.rs:28-46 | after the migration no run releases what it stranded |
| RegistryRuns.UnreadableRowLocksTwice | pallets/miner-registry/src/migrations.rs:28-46 | file, migrate an undecodable row, file again: two deposits are reserved for one descriptor |
| RegistryRuns.RunSound | pallets/miner-registry/src/lib.rs:536-937 | in every run funds are conserved and deposits are the ones the bytes call for; reserves equal deposits exactly if every effective migration reads all rows with a deposit |
| RegistryRuns.CounterOverRun | pallets/miner-registry/src/lib.rs:608-615 | the counter is the number of accepted calls, up to its limit |
| RegistryRuns.IndexOverRun | pallets/miner-registry/src/lib.rs:608-615 | accepted calls are index growth plus re-entries |
| RegistryRuns.CountEqualsIndexIff | pallets/miner-registry/src/lib.rs:558-624 | the counter is at least the number of indexed accounts, and equal exactly without re-entries |
| RegistryRuns.CountIsIndexSizeIff | pallets/miner-registry/src/lib.rs:558-624 | with forward candidates, equal exactly when nobody clears after participating and is accepted for the same qblock again |
| RegistryRuns.RefilingCountsTwice | pallets/miner-registry/src/lib.rs:558-624 | five calls after which one indexed account counts as two |
| Paging.Collect | pallets/miner-registry/src/lib.rs:647-655 | each row strictly after the cursor, once |
| Paging.ParticipantsByQblock | pallets/miner-registry/src/lib.rs:636-660 | the first min(limit, 1000) accounts after the cursor in increasing order, with their records, and exactly as many as there are up to that |
| Paging.PagingIsComplete | pallets/miner-registry/src/lib.rs:636-660 | following the last key with any positive limit lists every account after the cursor exactly once in order |
| Paging.PagingEnds | pallets/miner-registry/src/lib.rs:636-660 | and comes to an end |

## Left out

- Node service, command line, RPC, chain specification loading and scripts: input, output and plumbing.
- Runtime composition, runtime APIs, weights, benchmarks and genesis presets: wiring over other pallets.
- Hybrid signing crates and their bindings: cryptography.
- BLAKE3, ChaCha8, blake2 and SCALE: the generator is any stream, and hashing is followed up to its preimage tuple.
- `expected_gse` and the difficulty curve: floating point and square roots.
- Message texts of the topology check: only whether there is a complaint.
- Compute mempool lifecycle and delivery, slashing, xqvm, evm-chain-id and template pallets: single-expression rules or foreign state machines.
- The rest of `submit_proof`: registration, nonce, round records and the three difficulty comparisons after scoring, which add easy guards.
- Counter wrap-around on inputs beyond machine memory: spin vectors of more than 2^32 spins, and distance totals beyond 2^64 before they are scaled.
- Builds with overflow checks, which panic where the release build modelled here wraps.
- Selection.SelectFromBest: vectors longer than the u32 maximum are excluded, because the source uses that value as its initial distance.
- Selection.Round: the same vectors as for SelectFromBest are excluded.
- Selection.GreedyRounds: the same vectors as for SelectFromBest are excluded.
- Length caps of descriptor fields: they are enforced when an input is decoded, before any modelled call.
- Paging.ParticipantsByQblock: sorts the accounts and looks the records up, where the source sorts pairs whose keys are distinct.
- EmissionRuns.CatchUp: calls between two upgrades, at one annual rate, on an anchored chain; HistoriesAgree has no anchor condition.
- Issuance by other pallets is not a step of the ledger; transfers between ordinary accounts and into pots are.
- Reserves by other pallets are not a step of the registry: unnamed reserves are shared, and the deposit results hold as long as nobody else reserves or unreserves the same funds.
- In-place sorting is modelled on values as the unique sorted permutation, so the rearrangement steps of `sort_unstable` are not captured.
