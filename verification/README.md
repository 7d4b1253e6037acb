# Verified models of the vBuf residency, codec, layout and generator algorithms

This project models the algorithms behind the repository's evidence scripts, benchmarks and
v0.6 reader, and proves what they are for: that Belady MIN really bounds the other policies and
where that stops being true, that the generators are bijections, that the in-place butterfly is
its matrix, that codecs and the file format lose nothing, and that planners return optima.

`dafny verify dfyconfig.toml` checks everything. One module per file:

| files | what they model |
|---|---|
| `Residency`, `ResidencyAccounting`, `ResidencyHistory`, `Uniform`, `Leases` | the flat cache replay under LRU, LFU, MIN or any score, with leases |
| `Belady`, `MinWindow`, `AvoidableReloads`, `ResidencyLimits`, `ShortTraces`, `LfuLimits` | what MIN is worth against the other policies, and exactly how far |
| `LruStack`, `LeasedLru` | LRU along a sweep of capacities, without and with leases |
| `CostAware` | the cost-aware variant of the same replay, with its separate recency map |
| `Tiered`, `TieredInvariant`, `TieredRuns`, `TieredSizes`, `TieredHistory`, `TieredStore` | the HOT/WARM store with generations |
| `Hadamard`, `HadamardInPlace` | the Walsh-Hadamard butterfly |
| `Words`, `Jump`, `Mutation`, `TopHalves`, `Simd`, `StateLaws` | arithmetic modulo 2^32, jump-ahead, the integer generators and their inverse, the top halves that are stored, the two vector generators, closed forms of the states |
| `Segmentation` | the exact segmentation by dynamic programming |
| `Bytes`, `VbufFormat`, `VbufReader`, `VbufRoundTrip`, `VbufLaws` | the v0.6 writer and the checked reader, with its errors |
| `BitStream`, `BitPack`, `C3Pack`, `C3Kernels` | bit packing, the 3-bit packer, the packed matrix-vector kernels |
| `Correction`, `CorrectionCodec` | the match-bitmap correction stream and the payload split |
| `PrefixCode`, `EntropyAccounting` | the code lengths of the entropy accounting |
| `Lloyd`, `LloydRuns` | Lloyd iteration on scalar codebooks |
| `LayoutPlanner`, `LayoutSelection`, `PlanFile` | the BaseShift planner, Pareto filter and selection, and the plan against the written file |
| `Intervals`, `Placement` | interval merging and simulated placement |
| `Common`, `Sorting` | options, results, powers of two; insertion sort |

Loops of the source are methods with loops, over arrays, array2 buffers or a class where the source
updates in place, each proved equal to a specification function. The theorems are lemmas about
these functions.

Conventions. Python and C++ integers that wrap are written out modulo 2^32; 64-bit overflow tests of
the reader are explicit. Floating-point numbers are reals. Exceptions are `Option` or `Result`
values. Dictionaries are maps, byte buffers are sequences or arrays of numbers below 256.

What the proofs found about the code:

- `avoidable_reload_bytes` can be negative. The script computes it with lease schedules, and over all
  of these it is never negative exactly on traces of at most four requests
  (`ShortTraces.NeverNegativeLeasedExactly`). Where nothing is leased it is never negative for tensors
  of any sizes, exactly as long as the trace has at most 10^9 requests
  (`AvoidableReloads.NeverNegativeExactly`, `ShortTraces.NothingLeasedIsSafe`); beyond that the "never
  used again" key 10^9 compares as an early use.
- MIN reloads no more bytes than LFU exactly up to five requests when sizes differ and nothing is
  leased (`LfuLimits.NoMoreThanLfuExactly`).
- Hits never fall along the LRU capacity sweep when all tensors have one size, whatever is leased, or
  when nothing is leased, whatever the sizes (`LeasedLru.LeasedInclusion`, `LruStack.LruInclusion`).
  With leases and several sizes, as in the script's sweep, they can fall from the third request on
  (`LeasedLru.HitsNeverFallExactly`).
- The tiered store loses count of its bytes exactly when making HOT room drops the very tensor that
  is being promoted (`TieredRuns.RunValidExactly`); a six-request trace does it
  (`TieredRuns.BooksCanBreak`). For a choice of tensor sizes it never happens, whatever is requested, if
  and only if any two sizes that fit in each tier alone fit in WARM together
  (`TieredSizes.KeepsBooksExactly`).
- The unrolled generator restarts ordinals in its tail. It stores what the basic one stores, for all
  seeds and scales, if and only if the segment count is a multiple of 4 or the tail starts at a
  multiple of 2^32 (`Simd.UnrolledAgreesExactly`).
- `exact_segmentation` raises for a total of 0, although the empty range is coverable
  (`Segmentation.EmptyRangeIsCoverable`).
- The packed kernels equal the byte kernel on all rows of a width if and only if the width is a
  multiple of eight (`C3Kernels.WidthsThatAgree`). The two kernels that take groups in pairs need an
  even number of groups, or they read past the row and the input vector.
- Codes are stored in a byte, so they are the nearest codes exactly up to 256 levels
  (`Lloyd.StoredExactly`).
- The layout selection always returns base shift 3: every larger one costs at least eight bytes more
  (`LayoutSelection.ChooseLayout`).

## Model

| member | source | states |
|---|---|---|
| Residency.NextUses | scripts/qualify_residency_policy_poc17.py:85-91 | the backward pass gives every request the first later position of the same ref, which is what MIN's linear search looks for |
| Residency.PickVictim | scripts/qualify_residency_policy_poc17.py:182-189 | scanning the eligible refs finds the one victim that no other precedes under the policy's key |
| Residency.RunEvictions | scripts/qualify_residency_policy_poc17.py:178-191 | the eviction loop leaves the store, and the number of victims, of the recursive eviction |
| Residency.Simulate | scripts/qualify_residency_policy_poc17.py:157-203 | the replay loop with its dictionary, set and counters computes the state function used by every theorem below |
| ResidencyAccounting.EvictLoopFrame | scripts/qualify_residency_policy_poc17.py:178-191 | evicting only removes, counts its victims, spares leased refs and stops with room or with leased refs alone |
| ResidencyAccounting.Accounting | scripts/qualify_residency_policy_poc17.py:166-203 | after any prefix, policy and leases: resident bytes within capacity, loads are evictions plus residents, hits plus loads plus refusals are the requests, loads are reloads plus distinct refs loaded |
| ResidencyAccounting.LoadedIndices | scripts/qualify_residency_policy_poc17.py:194-203 | the listed load positions are as many as the loads, name exactly the refs seen, and their sizes add up to the loaded bytes |
| ResidencyAccounting.LeasesHold | scripts/qualify_residency_policy_poc17.py:178-191 | a resident ref that is leased at a request is still resident after it |
| ResidencyAccounting.RefusedExactly | scripts/qualify_residency_policy_poc17.py:192-193 | a request is refused if and only if it misses and does not fit beside the leased residents |
| ResidencyHistory.EntriesRecord | scripts/qualify_residency_policy_poc17.py:166-195 | every resident's entry holds its size when loaded, the position of its latest request and the number of its requests since it was loaded |
| ResidencyHistory.CountersExactly | scripts/qualify_residency_policy_poc17.py:166-203 | hits, loads and reloads are the numbers of requests that found their ref resident, that made it resident, and that made it resident again; the byte counters are the sums of their sizes |
| ResidencyHistory.LoadedInOrder | scripts/qualify_residency_policy_poc17.py:194-195 | the listed positions are exactly those of the loads, in increasing order |
| ResidencyHistory.VictimExactly | scripts/qualify_residency_policy_poc17.py:182-189 | LRU evicts the least recent, LFU the least used and then least recent, MIN the one used latest next and then the greatest ref, a score the least; all other ties go to the least ref |
| Belady.MinCovers | scripts/qualify_residency_policy_poc17.py:178-191 | MIN's lead over any other demand run always pays for the refs the other one still holds that are needed sooner |
| Belady.MinIsOptimal | scripts/qualify_residency_policy_poc17.py:157-203 | with equal sizes, no leases and at most 10^9 requests MIN loads no more than any run that evicts whatever it likes |
| Belady.MinBeatsPolicy | scripts/qualify_residency_policy_poc17.py:157-203 | under the same conditions MIN has no more loads, reloads or reload bytes than LRU, LFU or any score |
| LruStack.LruInclusion | scripts/qualify_residency_policy_poc17.py:157-203 | without leases: under LRU the smaller cache's residents are always among the larger one's, so hits never fall with capacity; any sizes |
| LeasedLru.LeasedInclusion | scripts/qualify_residency_policy_poc17.py:263-266 | under LRU with any leases and tensors of one size the smaller cache's residents are always among the larger one's, so hits never fall with capacity |
| LeasedLru.LeasesBreakInclusion | scripts/qualify_residency_policy_poc17.py:263-266 | five requests with leases and two sizes that hit once with capacity 4 and never with capacity 6, although every tensor fits in both |
| LeasedLru.HitsNeverFallExactly | scripts/qualify_residency_policy_poc17.py:263-266 | hits never fall with capacity on all traces of a length if and only if leases are not admitted, or unequal sizes are not, or the length is at most 2 |
| MinWindow.MinMissIsLruMiss | scripts/qualify_residency_policy_poc17.py:157-203 | without leases and with any sizes, a request that hits under LRU hits under MIN |
| AvoidableReloads.MinNoWorseThanLru | scripts/qualify_residency_policy_poc17.py:157-203 | without leases MIN has no more loads, reloads and reload bytes than LRU, for any sizes |
| AvoidableReloads.NeverNegativeExactly | scripts/qualify_residency_policy_poc17.py:157-203 | without leases LRU's reload bytes are at least MIN's on all traces of a length if and only if the length is at most 10^9 |
| ResidencyLimits.LeasesBreakMin | scripts/qualify_residency_policy_poc17.py:260-271 | for every length from 5 on, a trace and lease schedule of that length on which the avoidable reload bytes are -1 |
| ShortTraces.NeverNegativeLeasedExactly | scripts/qualify_residency_policy_poc17.py:260-271 | the avoidable reload bytes are non-negative on all traces of a length, capacities and lease schedules if and only if the length is at most 4 |
| ShortTraces.NothingLeased | scripts/qualify_residency_policy_poc17.py:168-181 | a schedule of empty lease sets replays like no schedule |
| ShortTraces.NothingLeasedIsSafe | scripts/qualify_residency_policy_poc17.py:260-271 | with a schedule of empty lease sets the avoidable reload bytes are non-negative up to 10^9 requests |
| ResidencyLimits.SizesBreakMin | scripts/qualify_residency_policy_poc17.py:157-203 | for every length from 6 on, a trace of that length with unequal sizes on which MIN reloads more bytes than LFU |
| LfuLimits.NoMoreThanLfuExactly | scripts/qualify_residency_policy_poc17.py:157-203 | without leases MIN reloads no more bytes than LFU on all traces of a length if and only if the length is at most 5 |
| LeaseSchedules.ActiveSets | scripts/qualify_residency_policy_poc17.py:94-111 | the lease set at a request holds exactly the refs with leases outstanding since their last eviction |
| LeaseSchedules.OutstandingExactly | scripts/qualify_residency_policy_poc17.py:94-111 | the outstanding leases are the largest surplus of acquires over releases in any stretch of events that ends here and holds no eviction |
| LeaseSchedules.PositionsExactly | scripts/qualify_residency_policy_poc17.py:94-111 | there is one set per request, in the order of the requests |
| CostAware.PickVictim | scripts/qualify_cost_aware_residency_poc20.py:34-60 | over sizes and the separate recency map the same victim is found as in the flat replay, for LRU, MIN and every score |
| CostAware.EvictFor | scripts/qualify_cost_aware_residency_poc20.py:30-66 | the eviction loop over these two maps mirrors the flat one |
| CostAware.Simulate | scripts/qualify_cost_aware_residency_poc20.py:14-93 | the whole replay reports the flat replay's figures, with first loads and reloads counted apart |
| CostAware.LoadsAreDistinct | scripts/qualify_cost_aware_residency_poc20.py:72-77 | its load count is the number of distinct refs ever inserted |
| TieredInvariant.EvictWarmBooks | scripts/qualify_tiered_residency_poc18.py:25-37 | evicting WARM entries keeps both byte counters right and succeeds exactly when the request fits in WARM at all |
| TieredInvariant.YoungestSurvives | scripts/qualify_tiered_residency_poc18.py:25-37 | the latest used WARM entry outlives the eviction exactly when it fits beside the required bytes |
| TieredInvariant.MakeHotRoomBooks | scripts/qualify_tiered_residency_poc18.py:39-57 | demoting keeps both counters, WARM within capacity and the per-entry facts, and succeeds exactly when the request fits in HOT at all |
| TieredInvariant.LatestSurvives | scripts/qualify_tiered_residency_poc18.py:39-57 | the entry being promoted outlives the demotions exactly when it fits in WARM beside each entry demoted |
| TieredRuns.ServeValidExactly | scripts/qualify_tiered_residency_poc18.py:59-95 | one request keeps the store valid (counters are tier sums within capacity, HOT entries are OLD, promotions minus demotions is the HOT count) if and only if it does not drop the tensor it promotes |
| TieredRuns.RunValidExactly | scripts/qualify_tiered_residency_poc18.py:59-95 | a whole run is valid throughout if and only if no request of it overcommits WARM that way |
| TieredRuns.PairsFitKeepsBooks | scripts/qualify_tiered_residency_poc18.py:59-95 | if any two request sizes fit in WARM together, every run is valid throughout |
| TieredSizes.KeepsBooksExactly | scripts/qualify_tiered_residency_poc18.py:14-95 | over a set of tensor sizes every run is valid throughout if and only if any two of them that fit in HOT and in WARM alone fit in WARM together |
| TieredRuns.BooksCanBreak | scripts/qualify_tiered_residency_poc18.py:84-90 | a six-request trace after which the counters no longer match the entries |
| TieredHistory.CountersExactly | scripts/qualify_tiered_residency_poc18.py:61-95 | after any prefix of any run, misses, HOT hits and WARM hits are the numbers of requests that found their tensor absent, in HOT and in WARM and add up to the requests; admissions are the requests that brought one in, and equal the stored tensors plus the dropped ones |
| TieredHistory.EntriesRecord | scripts/qualify_tiered_residency_poc18.py:66-81 | every entry records its size when admitted, its uses since then, its latest request, and the age that follows: new at one use, old above the limit, young between |
| TieredStores.TieredStore.EvictForWarm | scripts/qualify_tiered_residency_poc18.py:25-37 | the loop over the fields computes the eviction function |
| TieredStores.TieredStore.MakeRoomInHot | scripts/qualify_tiered_residency_poc18.py:39-57 | the loop over the fields computes the demotion function, including a demotion stopped half way |
| TieredStores.TieredStore.Request | scripts/qualify_tiered_residency_poc18.py:61-93 | one request updates the store as the serving function says |
| TieredStores.RunTiered | scripts/qualify_tiered_residency_poc18.py:14-95 | the run ends in the specified store, valid when any two sizes fit in WARM together |
| Hadamard.WhtIsMatrix | research/weight_space_transform_bench.cpp:46-49 | entry i of the transform is the sum of the inputs signed by the parity of the common ones of the indices |
| Hadamard.WhtTwice | research/weight_space_transform_bench.cpp:46-49 | transforming twice multiplies by the block size |
| Hadamard.WhtEnergy | research/weight_space_transform_bench.cpp:46-49 | the sum of squares grows by the block size |
| Hadamard.PassDoubles | research/weight_space_transform_bench.cpp:46-49 | one butterfly pass turns transforms of runs of a width into transforms of runs of twice that width |
| HadamardInPlace.ButterflyRuns | research/weight_space_transform_bench.cpp:46-49 | the inner loop replaces two runs by their sum and difference and touches nothing else |
| HadamardInPlace.PassInPlace | research/weight_space_transform_bench.cpp:46-49 | the middle loop performs one pass on a block in place |
| HadamardInPlace.TransformInPlace | research/weight_space_transform_bench.cpp:46-49 | the outer loop leaves the transform of the block in place |
| HadamardInPlace.HadamardBlocks | research/weight_space_transform_bench.cpp:42-52 | the output holds the scaled transform of every block of the input, and nothing beyond the count changes |
| HadamardInPlace.BlocksTwice | research/weight_space_transform_bench.cpp:42-52 | with the square of the scale times the block equal to 1, running twice returns the input |
| HadamardInPlace.BlocksEnergy | research/weight_space_transform_bench.cpp:42-52 | with that scale the sum of squares is kept |
| Words.ModularInverse | scripts/qualify_simd_traceable_mutation.py:63-66 | fails exactly on even values and otherwise returns the inverse modulo 2^32 |
| Words.InverseExactly | scripts/qualify_simd_traceable_mutation.py:63-66 | the values it rejects are exactly those without an inverse |
| Words.UndoXorRight | scripts/qualify_simd_traceable_mutation.py:69-75 | the doubling loop computes the undo function |
| Words.UndoXorInverts | scripts/qualify_simd_traceable_mutation.py:69-75 | undoing an xor with the right shift returns the word, for every distance |
| Words.XorShiftInverts | scripts/qualify_simd_traceable_mutation.py:69-75 | and the other way round |
| Jump.AffineJump | scripts/qualify_simd_traceable_mutation.py:78-87 | repeated squaring gives the map of n steps of x -> a*x+b modulo 2^32, for every n |
| Jump.JumpTables | research/simd_traceable_mutation_bench.cpp:42-51 | table entry [rounds][lane] is the generator stepped lane+1+rounds times |
| Mutation.IntegerState | research/simd_traceable_mutation_bench.cpp:59-74 | the scalar loop computes the state function, for families M0, M1 and M2 |
| Mutation.RoundsUndone | scripts/qualify_simd_traceable_mutation.py:107-111 | undoing the rounds after doing them, and doing them after undoing them, returns the state |
| Mutation.StateInjective | scripts/qualify_simd_traceable_mutation.py:96-112 | equal states at the same ordinal and lane come from equal seeds |
| Mutation.OrdinalInjective | scripts/qualify_simd_traceable_mutation.py:96-112 | equal states from the same seed and lane come from equal ordinals when position aware |
| Mutation.ReverseIntegerState | scripts/qualify_simd_traceable_mutation.py:136-155 | returns the one seed that generates the given state, so generating is a bijection of 32-bit words |
| StateLaws.AffineRound | scripts/qualify_simd_traceable_mutation.py:105-106 | a round of M1 multiplies, adds B and adds the lane times B with its low bit set, so it grows by that from lane to lane |
| StateLaws.AffineState | research/simd_traceable_mutation_bench.cpp:65-68 | the M1 state in closed form: an affine function of seed, ordinal and lane modulo 2^32, for every round count, aware of the position or not |
| StateLaws.XorState | research/simd_traceable_mutation_bench.cpp:65-72 | an M2 state is that of one round less after an affine step, an xor with its right shift and a product; with no rounds it is the M1 state |
| StateLaws.XorShiftBits | scripts/qualify_simd_traceable_mutation.py:108 | bit k of a word xored with its right shift by d is the sum of bits k and k + d modulo 2 |
| StateLaws.JumpState | research/simd_traceable_mutation_bench.cpp:59-64 | the first M0 lane is one step of the generator from the root, each further lane one step on, and a round moves all lanes one step on |
| TopHalves.HalfChangesTop | research/simd_traceable_mutation_bench.cpp:55-74 | for every family and round count some state and the one 2^31 away have different top halves in lane 0 |
| TopHalves.NothingIsBlind | research/simd_traceable_mutation_bench.cpp:55-74 | no nonzero shift of the seed leaves the stored top half of lane 0 unchanged for every seed |
| Simd.GenerateBasic | research/simd_traceable_mutation_bench.cpp:118-130 | eight lanes at a time, every row holds the scaled top halves of the scalar states of its segment |
| Simd.GenerateUnrolled4 | research/simd_traceable_mutation_bench.cpp:118-145 | every row holds the scaled top halves of the scalar states of its segment, with ordinals restarted in the tail |
| Simd.UnrolledAgreesExactly | research/simd_traceable_mutation_bench.cpp:132-145 | the two generators store the same values for all seeds and scales if and only if the count is a multiple of 4 or the tail starts at a multiple of 2^32 |
| StateLaws.StoredIs | research/simd_traceable_mutation_bench.cpp:55-57 | what is stored is the scale times the signed state over 2^16, rounded down, over 2^15 |
| Segmentation.ExactSegmentation | scripts/qualify_implicit_weight_feasibility.py:263-283 | raises exactly for 0 or an uncoverable total; otherwise the pieces cover the range and no allowed cover costs less |
| Segmentation.TriedAll | scripts/qualify_implicit_weight_feasibility.py:267-273 | a row that has tried every length holds the least cost over all covers up to its end |
| Segmentation.WalkBack | scripts/qualify_implicit_weight_feasibility.py:276-283 | following the links back gives a cover of exactly the cost in the table |
| Segmentation.CoversIsContiguous | scripts/qualify_implicit_weight_feasibility.py:263-283 | the pieces of a cover are allowed, follow each other from 0 and end at the total |
| Segmentation.CostAdds | scripts/qualify_implicit_weight_feasibility.py:270-272 | the cost of pieces laid end to end is the sum of their costs |
| Segmentation.EmptyRangeIsCoverable | scripts/qualify_implicit_weight_feasibility.py:274-275 | a total of 0 has a cover, though the code raises for it |
| VbufFormat.AnchorIsSum | scripts/build_v06_conformance_fixtures.py:20-25 | for fields inside their widths the or of shifted fields has no collisions and fits 64 bits |
| VbufFormat.AnchorRoundTrip | rust/src/v06.rs:437-444 | decoding an anchor returns the fields packed into it |
| VbufFormat.DecodeRoundTrip | rust/src/v06.rs:437-444 | every 64-bit word is the anchor of the fields decoded from it |
| VbufFormat.GlobalHeader | scripts/build_v06_conformance_fixtures.py:28-36 | fails exactly on a header size other than the header's length or a field that does not fit |
| VbufFormat.AppendBlock | scripts/build_v06_conformance_fixtures.py:45-61 | one turn of the writer appends anchor, long count, padding and payload, or fails on what does not fit |
| VbufFormat.Canonical | scripts/build_v06_conformance_fixtures.py:39-67 | the loop returns the image of the document, with every block start aligned, and fails exactly when something cannot be packed |
| VbufReader.CheckExtensions | rust/src/v06.rs:342-376 | the walk over extension records reports the first bad one |
| VbufReader.PayloadAligned | rust/src/v06.rs:489-527 | payloads lie on their alignment and blocks on the step, so the reader's own alignment tests never fire and no 64-bit sum overflows |
| VbufReader.WalkBlocks | rust/src/v06.rs:410-563 | the loop over the blocks computes the recursive walk, with every error in the code's order |
| VbufReader.ParseV06 | rust/src/v06.rs:274-578 | the whole reader computes the parse function, including which error comes first |
| VbufRoundTrip.BlockReadsBack | rust/src/v06.rs:413-541 | a conforming block is read back as written, in inline and 64-bit count form |
| VbufRoundTrip.BlockWasWritten | rust/src/v06.rs:413-541 | a block that reads well is conforming and its bytes are what the writer writes for it |
| VbufRoundTrip.RegionReadsBack | rust/src/v06.rs:410-563 | the walk over written blocks returns exactly their views and stops exactly at the end |
| VbufRoundTrip.RegionWasWritten | rust/src/v06.rs:410-563 | if the walk succeeds, the rest of the file is the writing of the recovered blocks |
| VbufRoundTrip.ExtensionsAgree | rust/src/v06.rs:342-376 | the record walk succeeds exactly on optional records that fill the header |
| VbufRoundTrip.WrittenIsRead | scripts/build_v06_conformance_fixtures.py:39-67 | reading the image of any conforming document succeeds and gives the document back |
| VbufRoundTrip.ReadWasWritten | rust/src/v06.rs:274-578 | whatever the reader accepts is, byte for byte, the image of the conforming document it reports |
| VbufRoundTrip.AcceptsExactly | rust/src/v06.rs:274-578 | the reader accepts exactly the images of conforming documents |
| VbufRoundTrip.ImageInjective | scripts/build_v06_conformance_fixtures.py:39-67 | different conforming documents have different images |
| VbufLaws.ConformingExactly | rust/src/v06.rs:240-272 | a block conforms if and only if its semantic and width are an accepted pair, it is an array or a single scalar, its numbers fit their fields, and 8 times the payload length is count times width below 2^64 |
| VbufLaws.PayloadsFill | rust/src/v06.rs:506-509 | of every reported block, 8 times the length of the payload is count times width |
| VbufLaws.BasicFile | scripts/build_v06_conformance_fixtures.py:86-90 | the writer writes 44 given bytes for an array of three 32-bit numbers, and the reader reports its payload in bytes 32 to 44 |
| VbufLaws.CutFile | rust/src/v06.rs:274-578 | for every conforming file and every shorter prefix of it, what the reader returns: the error, or the blocks that are still whole |
| VbufLaws.HeaderErrorsInOrder | rust/src/v06.rs:274-376 | of the header's tests the first that fails gives the error |
| VbufLaws.RecordErrors | rust/src/v06.rs:342-376 | the first extension record that is malformed is invalid, the first well-formed one with flag 1 is required and unknown, whatever optional records precede it |
| VbufLaws.RegionErrorsInOrder | rust/src/v06.rs:378-405 | after them come room for the data region, its padding, the overflow and the length, in this order |
| VbufLaws.BlockErrorsInOrder | rust/src/v06.rs:419-483 | of the tests of a block's anchor and count the first that fails gives the error |
| VbufLaws.PayloadErrorsInOrder | rust/src/v06.rs:485-517 | after them come padding inside the file, clean padding, bits that fit 64 bits, and the payload inside the file |
| VbufLaws.EndingErrorsInOrder | rust/src/v06.rs:544-561 | what the reader says about the end of a block: a continuation that cannot follow, tail padding, or padding that is not clean |
| VbufLaws.DamagedAnchor | rust/src/v06.rs:430-483 | a conforming block with one anchor field out of range, or with the wrong form of count, gives that field's error |
| VbufLaws.DamagedHeader | rust/src/v06.rs:281-349 | one changed byte of a conforming file's first 16 bytes gives the error of the field it lies in |
| VbufLaws.ZeroAnchor | rust/src/v06.rs:430-436 | eight zero bytes where a block should start are an invalid anchor |
| Correction.AppendValues | scripts/qualify_lut_predictive_correction.py:174-175 | appends the exact values, failing on the first that does not fit |
| Correction.PackMatchExceptions | scripts/qualify_lut_predictive_correction.py:160-176 | packs every block, counts the positions where target and prediction differ, and fails exactly when a block has more than 65535 of them or one does not fit its field |
| Correction.ExceptionsExactly | scripts/qualify_lut_predictive_correction.py:168-171 | the exceptions are the target values at the positions where the prediction is wrong, in order |
| Correction.BlockLayout | scripts/qualify_lut_predictive_correction.py:168-175 | a block is two bytes holding the number of wrong values, a bitmap whose bit i says whether value i is predicted, and the wrong values |
| Correction.WidthLeast | scripts/qualify_lut_predictive_correction.py:175 | exact values take the least whole number of bytes that holds a symbol |
| Correction.BlockRestores | scripts/qualify_lut_predictive_correction.py:183-194 | decoding a packed block over the prediction returns the target and moves the cursor over exactly its bytes |
| Correction.ExactCorrection | scripts/qualify_lut_predictive_correction.py:179-197 | decoding a packed stream returns the target, and any byte after it is reported as trailing |
| Correction.SmallBlocksPack | scripts/qualify_lut_predictive_correction.py:160-176 | with blocks of at most 65535 values and values in range, packing cannot fail |
| Correction.AcceptedPrefixFree | scripts/qualify_lut_predictive_correction.py:179-197 | no accepted stream is a proper prefix of another, so truncation and extension are always rejected |
| CorrectionCodec.PatchBlock | scripts/qualify_lut_predictive_correction.py:190-192 | overwrites exactly the unmatched values of one block in place |
| CorrectionCodec.UnpackMatchExceptions | scripts/qualify_lut_predictive_correction.py:179-197 | the decoding loop computes the decoder, on malformed and short streams too |
| CorrectionCodec.SplitRestores | scripts/qualify_lut_predictive_correction.py:245-263 | splitting a payload into codes and metadata and restoring it changes no byte, for one- and two-byte symbols |
| CorrectionCodec.CodesAre | scripts/qualify_lut_predictive_correction.py:245-253 | symbol i of block b is read at the code offset of that block plus i symbols, low byte first |
| CorrectionCodec.MetadataIs | scripts/qualify_lut_predictive_correction.py:245-253 | all bytes of a block outside its codes are metadata, in order |
| CorrectionCodec.ByteIdentical | scripts/qualify_lut_predictive_correction.py:460-465 | correcting any prediction and restoring gives the canonical bytes back, for block sizes up to 65535 |
| CorrectionCodec.FormatsAreValid | scripts/qualify_lut_predictive_correction.py:50-55 | the four target formats satisfy what the split needs, and have the listed numbers of metadata bytes |
| CorrectionCodec.RestorePayload | scripts/qualify_lut_predictive_correction.py:256-263 | the slice assignments into the zeroed buffer build the restored payload |
| PrefixCode.CodeLengthLeast | scripts/qualify_lut_predictive_correction.py:217 | the length is the least L of at least 1 with count times 2^L at least the total |
| PrefixCode.Kraft | scripts/qualify_lut_predictive_correction.py:214-218 | the lengths of every histogram satisfy the Kraft inequality |
| PrefixCode.PrefixCodeExists | scripts/qualify_lut_predictive_correction.py:214-215 | lengths with a Kraft sum of at most 1 are those of a prefix code, which is constructed level by level |
| EntropyAccounting.HuffmanLengths | scripts/qualify_lut_predictive_correction.py:200-218 | returns the length of every distinct value and the header bits, in the single-symbol case too |
| EntropyAccounting.SymbolLengthLeast | scripts/qualify_lut_predictive_correction.py:216-217 | the length of each symbol is the least L of at least 1 for which its occurrences times 2^L reach the number of values |
| EntropyAccounting.LengthsFormPrefixCode | scripts/qualify_lut_predictive_correction.py:214-218 | for every value sequence the returned lengths are those of a binary prefix code |
| EntropyAccounting.PayloadBitsAreStreamLength | scripts/qualify_lut_predictive_correction.py:221-227 | the accounted payload bits are the length of the stream encoded with such a code |
| EntropyAccounting.UniquelyDecodable | scripts/qualify_lut_predictive_correction.py:214-218 | that stream determines the values |
| BitPack.PackCodes | scripts/audit_step30_slack.py:29-37 | setting bits in the zeroed buffer writes the codes end to end; fails exactly on a width outside 1 to 8 or a code that does not fit |
| BitPack.UnpackCodes | scripts/audit_step30_slack.py:38-44 | reads the codes back group by group and fails exactly when the buffer is too short |
| BitPack.PackRoundTrip | scripts/audit_step30_slack.py:29-44 | unpacking returns the codes, the buffer has exactly ceil(len*bits/8) bytes, and the unused bits are zero |
| BitPack.UnpackRoundTrip | scripts/audit_step30_slack.py:29-44 | a buffer whose bits are all used packs back to itself |
| BitPack.PackedCodeBit | scripts/audit_step30_slack.py:32-36 | bit j of code i is bit i times the width plus j of the buffer, counted from the lowest bit of the first byte |
| C3Pack.PackRow | research/ccc_c3_kernel.cpp:8-26 | the packed bytes of the whole groups are those of the general packer at 3 bits, and no other byte changes |
| C3Pack.UnpackRow | research/ccc_c3_kernel.cpp:29-44 | the unpacked codes are those of the bit stream, and no other code changes |
| C3Pack.LaneIsCode | research/ccc_c3_kernel.cpp:124-167 | a three-bit lane of a word read at a group is the code at that column, in three- and six-byte words |
| C3Pack.PackedRowCodes | research/ccc_c3_kernel.cpp:8-44 | a packed row unpacks to the codes it was packed from |
| C3Kernels.RowByte | research/ccc_c3_kernel.cpp:70-87 | the byte kernel sums level times input over all columns |
| C3Kernels.DotOfUnit | research/ccc_c3_kernel.cpp:70-87 | an input that is 1 in one column and 0 elsewhere gives the level of that column's code |
| C3Kernels.DotIsLinear | research/ccc_c3_kernel.cpp:70-87 | the row sum is linear in the input |
| C3Kernels.RowScalar | research/ccc_c3_kernel.cpp:90-121 | the scalar packed kernel sums over the whole groups |
| C3Kernels.RowPaired | research/ccc_c3_kernel.cpp:124-167 | the six-byte kernel computes the same sum for an even number of groups |
| C3Kernels.RowLanes | research/ccc_c3_kernel.cpp:170-220 | eight lane sums and the horizontal addition give the same sum |
| C3Kernels.RowPairedLanes | research/ccc_c3_kernel.cpp:223-284 | so do two accumulators over pairs of groups |
| C3Kernels.MatvecPacked | research/ccc_c3_kernel.cpp:90-284 | every output is its row's packed sum, whichever kernel runs, and other outputs are left alone |
| C3Kernels.MatvecByte | research/ccc_c3_kernel.cpp:70-87 | every output is its row's byte sum |
| C3Kernels.WidthsThatAgree | research/ccc_c3_kernel.cpp:70-284 | the packed and the byte sum agree on all rows, levels and inputs of a width if and only if the width is a multiple of eight |
| Lloyd.NearestBeats | scripts/qualify_ccc_geometric.py:68-75 | nearest codes have no more squared error than any assignment to levels that are all on offer |
| Lloyd.StoredExactly | scripts/qualify_ccc_geometric.py:68-75 | the codes stored in bytes are the nearest codes for all values and levels if and only if there are at most 256 levels |
| Lloyd.DistortionNext | scripts/qualify_ccc_c4_hard_gate.py:38 | every further value adds the square of its distance from its level to the error |
| Lloyd.MeanIsBest | scripts/qualify_ccc_geometric.py:89-91 | the mean of a cluster minimises its squared error, and an empty cluster keeps its level |
| Lloyd.StepNeverWorse | scripts/qualify_ccc_geometric.py:87-92 | with at most 256 levels one iteration, byte codes and sort included, never increases the mean squared error |
| Lloyd.RunNeverWorse | scripts/qualify_ccc_c4_hard_gate.py:35-45 | with at most 256 levels the objective of any iterate is at most that of every earlier one |
| LloydRuns.NearestCodes | scripts/qualify_ccc_geometric.py:68-75 | chunk by chunk every value gets the first nearest level, stored modulo 256 |
| LloydRuns.UpdateLevels | scripts/qualify_ccc_geometric.py:88-92 | the bin counts give the next iterate |
| LloydRuns.LloydMax | scripts/qualify_ccc_geometric.py:83-97 | the result is an iterate: the first that is close to the one before it, or the last one allowed; with at most 256 levels it is no worse than any earlier one |
| LloydRuns.CloseExactly | scripts/qualify_ccc_geometric.py:93 | close means that no level moved by more than 1e-8 plus a millionth of its former size |
| LloydRuns.RunLloyd | scripts/qualify_ccc_c4_hard_gate.py:34-48 | stops at the first pair of iterates whose measured error does not rise and falls by at most 1e-12 or a millionth, or at the limit; the returned error is that of the stored codes, the improvement is against the last value kept, and with at most 256 levels nothing ever gets worse |
| LayoutPlanner.RowsPlaced | scripts/qualify_step26_qwen32b.py:99-107 | blocks and payloads start on the step, in order and without overlap, and the file ends with the last |
| LayoutPlanner.SizeAccounts | scripts/qualify_step26_qwen32b.py:99-108 | the final size is start, payloads, headers and row paddings |
| LayoutPlanner.PaddingAccounts | scripts/qualify_step26_qwen32b.py:108 | the reported padding is the gap before the data region plus all row paddings |
| LayoutPlanner.SlotsAreDistinct | scripts/qualify_step26_qwen32b.py:126-127 | every block has its own slot inside the bitmap, so set bits never exceed slots |
| LayoutPlanner.BaseShiftMonotone | scripts/qualify_step26_qwen32b.py:99-108 | raising the base shift never shrinks the final size |
| LayoutPlanner.ThreeIsSmallest | scripts/qualify_step26_qwen32b.py:99-108 | every base shift above 3 gives a file at least eight bytes larger than base shift 3 |
| LayoutSelection.PlaceRows | scripts/qualify_step26_qwen32b.py:100-107 | the first loop places the rows and adds up payloads and headers |
| LayoutSelection.CoalesceRuns | scripts/qualify_step26_qwen32b.py:119-125 | the second loop counts the runs of touching blocks and covers every block from its start to its end |
| LayoutSelection.PlanCandidate | scripts/qualify_step26_qwen32b.py:99-127 | the reported figures satisfy the accounting: padding, covered bytes as headers plus inner padding plus payloads, runs, slots and set bits |
| LayoutSelection.RunsArePaddings | scripts/qualify_step26_qwen32b.py:119-125 | the runs of a plan are its first block and the blocks with padding before them |
| PlanFile.PlannedSize | scripts/qualify_step26_qwen32b.py:99-108 | the final size is the length of the file the writer writes for 8-bit arrays of these payload lengths |
| PlanFile.PlannedPlaces | scripts/qualify_step26_qwen32b.py:99-107 | the reader of that file reports every block start, payload start and payload end where the plan has them |
| LayoutSelection.DominatesExactly | scripts/qualify_step26_qwen32b.py:131-137 | one candidate dominates another if and only if it is no larger in any of the five measures and smaller in at least one |
| LayoutSelection.Pareto | scripts/qualify_step26_qwen32b.py:130-139 | the base shifts of exactly the candidates that no other dominates, in order |
| LayoutSelection.FirstSurvives | scripts/qualify_step26_qwen32b.py:130-139 | the filter keeps a candidate of the smallest final size |
| LayoutSelection.Select | scripts/qualify_step26_qwen32b.py:154 | the selected candidate survives, is least among the survivors by final size, then padding, then step, and no candidate at all is smaller |
| LayoutSelection.ChooseLayout | scripts/qualify_step26_qwen32b.py:151-154 | over base shifts 3 to 8 the selected one is 3, with a file at least eight bytes smaller than each other's, whatever the spans and amplifications |
| Intervals.LengthAndCover | scripts/qualify_step16.py:331-335 | ranges add up to at least the bytes they cover, and to exactly them if and only if no two overlap |
| Intervals.MergeIsExact | scripts/qualify_step16.py:319-328 | merged ranges are in order and apart, cover exactly the input bytes, and their lengths add up to the number of these bytes |
| Intervals.ModesAgree | scripts/qualify_step16.py:319-328 | both adjacency modes have the same total length |
| Intervals.OrderedExactly | scripts/qualify_step16.py:319-328 | the ranges are sorted by start and then by end |
| Intervals.MergeCounts | scripts/qualify_step16.py:319-328 | there are as many merged ranges as ranges that, in sorted order, no earlier one reaches: touching counts as reaching only when touching ranges are joined |
| Intervals.MergeIntervals | scripts/qualify_step16.py:319-328 | the loop over the sorted ranges computes the merge |
| Placement.StartsApart | scripts/qualify_step16.py:301-310 | simulated starts are aligned, and no tensor overlaps a later one |
| Placement.StartsTight | scripts/qualify_step16.py:301-310 | every tensor starts less than one alignment after the previous one ends |
| Placement.PowersOfTwo | scripts/qualify_step16.py:65-67 | the alignments accepted are exactly the powers of two |
| Placement.SimulateLayout | scripts/qualify_step16.py:301-310 | fails exactly on an unresolved size or a bad alignment; payload and padding account for every byte up to the end |
| Placement.MeasureSelection | scripts/qualify_step16.py:331-342 | physical bytes are the bytes covered, at most the payload, equal to it exactly when nothing overlaps, and at most the span from the least start to the greatest end |
| Placement.MergeKeepsEnds | scripts/qualify_step16.py:331-342 | merging keeps the least start and the greatest end |
| Placement.PhysicalIsPayload | scripts/qualify_step16.py:289-342 | for any selection placed by any such layout the physical bytes are the payload, hence the same in every layout |

## Left out

- Files, traces, GGUF, JSON, CSV, hashing, reports, benchmarks and classifications: input, output and text.
- Floating-point rounding, fp16 scales and fused multiply-add differences: numbers are reals.
- The `admission-repeated` policy, the reuse and class reports and the per-ref reload counters of the flat replay: unused by the main figures or one-pass summaries.
- The retention score of the cost-aware replay as a formula, its request counts and decision rows: any real score of sizes, recency, eligible refs and position is allowed, so the theorems hold for it too, provided it is a function of these.
- Peaks, epochs, promotion rows and per-event byte metrics of the tiered store: reporting only.
- Family M3: floating point. The mapping of a state's top half to a scaled value is exact, over the reals.
- The square root in the Hadamard normalisation: a parameter whose square times the block is 1.
- Belady.MinIsOptimal: is for equal sizes and no leases; with unequal sizes MIN is compared with LRU and LFU only.
- Segmentation.ExactSegmentation: which of several equally cheap segmentations is returned is not stated.
- The reader's error offsets and messages, its nested-stream and typed views, and the C reader: only the error code and the accepted content are modelled. Hosts have 64-bit indices.
- Out-of-range fields of a packed anchor: the writer model ors them as the code does, but the round trip is for conforming documents.
- The streaming writer in Rust: the canonical layout is that of the fixture writer.
- The heap walk of `huffman_lengths`: its lengths are overwritten before they are returned. The base-2 logarithm is exact, not rounded.
- Quantile and uniform initial levels of the Lloyd loops: any initial levels are allowed.
- Layer spans, gaps and percentages of the planner: span counts and amplifications enter the selection as arbitrary numbers.
- The sort keys of the layout orders and the source-order layout's gaps: placement is proved for every order, metrics for every placement.
- Out-of-bounds reads of the paired kernels for an odd number of groups: excluded by a precondition, as the code is not defined there.
