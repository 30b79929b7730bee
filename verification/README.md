# Verification model of mlx-node's CPU-side logic

This project models the decision-making code of the repository that runs on the CPU, and proves what
that code promises: the speculative-decoding sampler, the typo suggester, the dataset generators, the
identity of the persistent KV tier, the checkpoint importer, the free-list coordinator, the model
thread, the metallib gates of the build, the decode profiler and the resumable training loop. Code that
changes state step by step is modelled by methods with loops, arrays and classes, each tied by its
`ensures` to a specification function or predicate; the theorems are lemmas about those specifications.
`dafny verify dfyconfig.toml` checks everything.

| file | models | main results |
|---|---|---|
| `SparseSampling`, `SpeculativeExactness` | inverse-CDF draws, accept or resample | the emitted token has exactly the target law |
| `SparseRows` | top-p cut and softmax of a sparse row | every row is a valid input of that theorem |
| `NucleusFilter` | the dense top-p filter | it keeps the nucleus, and ties do not matter |
| `RepetitionCutoff` | the repetition detector | it decides periodicity of the tail |
| `EditDistance` | Levenshtein table, closest match | least number of edits over all scripts, a metric |
| `Shuffle`, `Interleave`, `Curriculum` | dataset generators | Fisher-Yates is a bijection; balance and conservation |
| `Fingerprint` | the component list of a model identity | unique decodability |
| `ColdRoot` | the process-global cold tier | a set-once slot under every interleaving |
| `GemmaKeys`, `GemmaImport`, `GemmaImporter`, `GemmaConfluence`, `GemmaWitnesses` | the gemma-QAT importer | exact order independence, conservation, honest metadata |
| `CacheLimit` | the free-list coordinator | the memo is the cap; the budget adds up |
| `ModelThread` | the dedicated model thread | order, no lost command, termination of the join |
| `MetallibScan`, `MetallibFloor` | baked-path scan, deployment floor | sound and complete verdicts on binaries |
| `DecodeProfiler` | acceptance counters, phase stack | counters count cycles, spans are accumulated |
| `ResumeLoop` | training loop, two-turn segments | a resumed run completes the uninterrupted one |

`Wrappers`, `Arithmetic`, `Sequences`, `Decimals` and `Floats` hold what they share.

Probabilities, logits and shares are reals; a float that may be infinite or not a number is a `Float`.
Random numbers, clock readings, environment variables, file contents, the outcome of fallible calls and
the visit order of hash maps are inputs, so every theorem holds for all of them. The exponential is any
positive function, and for `SparseRows.RowIsSoftmax` any positive function that turns sums into
products. The probability of an event is the volume of the coins that lead to it: the coins of one
speculative step form the unit cube, `SpeculativeExactness.BoxesPartitionTheCube` cuts it into boxes on
which the outcome is constant, and `EmissionProbability` adds up the boxes that emit a token.

## What the code does not do

Some promises hold only under a condition. Each of these is stated with the exact condition and with an
input on which the promise fails.

- The importer is not independent of the visit order for every checkpoint with distinct names: a module
  with both a `.weight_scale` and an `.embedding_scale` keeps whichever is visited last
  (`GemmaWitnesses.TwoScalesDiverge`). If some pair of visit orders imports, all pairs give one result
  exactly when no module is offered two weights or two scales and every clash of passed-through tensors is
  overwritten by a module (`GemmaConfluence.ImportConfluence`; `GemmaConfluence.OrdersAgree` for every
  checkpoint).
- A float tensor named like the packed weight of an imported module is silently overwritten
  (`GemmaWitnesses.PassThroughOverwritten`). A passed-through tensor that clashes with no other survives
  exactly when no module writes its output key (`GemmaImport.EveryKeptTensorIsUsed`).
- The coverage check rejects a checkpoint whose only tensor is named `scales`, because its output key
  gains a dot with the namespace (`GemmaWitnesses.BareScalesRejected`). It rejects exactly when a passed-through
  output ends in `.scales` without an override (`GemmaImport.CoverageFailure`, `GemmaImport.ScalesName`).
- The importer reads the layer number, the checkpoint declares bits by its spelling: `05` and `+5` get bits
  that are not the declared ones (`GemmaKeys.ScheduleDiffers`). `GemmaKeys.ScheduleMatchesDeclaration` says
  for every spelling when the two agree.
- A registration can raise the free-list cap: an empty coordinator leaves the old cap in place, and a
  smaller model loaded next raises it (`CacheLimit.ReloadRaisesCap`). `CacheLimit.RegisterRaisesExactlyWhen`
  gives the condition over every run, for whatever set the cap in force; a cap computed for the live
  weights in the same environment never rises (`CacheLimit.ComputedCapNeverRises`).
- `MLX_CACHE_LIMIT_GB` set to `nan` or to `1e-10` is neither unparseable nor non-positive, and gives a cap of
  zero (`CacheLimit.ZeroCaps`). `CacheLimit.ZeroCapExactlyWhen` gives the condition over every run.
- Two concurrent installs of the same cold-tier directory: the second is refused while the first has not
  yet recorded its root (`ColdRoot.ConcurrentRepeatIsRefused`). An install returns true exactly when its first
  check finds its directory recorded or it sets the empty slot itself (`ColdRoot.InstallReturnsTrue`,
  `ColdRoot.RepeatReturnsTrue`).
- A repeated `shutdown_and_join` returns Ok even after the first one reported a panic
  (`ModelThread.RepeatHidesPanic`). What an Ok says about the accepted commands is decided by
  `ModelThread.ShutdownServesEverything` and `ModelThread.RepeatedShutdown`.
- The "exceeds dataset size" branch of the training loop is reached exactly by a fresh run on an empty
  data set (`ResumeLoop.Train`, whose condition names the inputs).

## Model

| member | source | states |
|---|---|---|
| SparseSampling.ProbabilityPositive | crates/mlx-core/src/sampling.rs:202-214 | a lookup is positive if and only if some entry of the token carries positive mass |
| SparseSampling.ProbabilityIsFirst | crates/mlx-core/src/sampling.rs:202-214 | a lookup returns the first positive entry of the token |
| SparseSampling.ProbabilityAt | crates/mlx-core/src/sampling.rs:202-214 | with distinct ids the lookup of an entry's token is that entry's mass |
| SparseSampling.SelectionExists | crates/mlx-core/src/sampling.rs:273-284 | every point below the total lies in the half-open interval of some positive entry |
| SparseSampling.SelectionUnique | crates/mlx-core/src/sampling.rs:273-284 | no point lies in two intervals, so the intervals partition `[0, total)` |
| SparseSampling.DrawExists | crates/mlx-core/src/sampling.rs:273-293 | every point has exactly one drawn index, the interval's owner or, at the total, the last positive entry |
| SparseSampling.SampleSparseSlices | crates/mlx-core/src/sampling.rs:249-293 | the loop returns the token that owns the coin's point, or the error for a mismatched or massless row |
| SparseSampling.AcceptedMass | crates/mlx-core/src/sampling.rs:982-988 | drafting with q and accepting keeps exactly min(p, q) and rejects exactly (q - p)+; zero target mass is never accepted |
| SparseSampling.KeptExactlyWhen | crates/mlx-core/src/sampling.rs:946-988 | for every target, draft row and coin below 1 a draft is kept if and only if the coin's share of its draft mass is less than its target mass, draft mass 0 included |
| SparseSampling.CollectResidual | crates/mlx-core/src/sampling.rs:955-968 | the loop lists the positive entries of (p - q)+ over the target's support in order, with their total |
| SparseSampling.DivideBy | crates/mlx-core/src/sampling.rs:973-975 | every residual is divided by the total |
| SparseSampling.CompactDraw | crates/mlx-core/src/sampling.rs:955-979 | dropping empty entries and normalising moves no draw |
| SparseSampling.AcceptWithResidualSparse | crates/mlx-core/src/sampling.rs:921-980 | the step accepts, draws from the residual, or falls back to the target row, as a function of its coins; both argument errors |
| SpeculativeExactness.BoxesPartitionTheCube | crates/mlx-core/src/sampling.rs:921-980 | each coin triple lies in exactly one outcome box, and inside a box the sampler's answer is that outcome |
| SpeculativeExactness.KeptSum | crates/mlx-core/src/sampling.rs:946-953 | the accepted draws of a token have volume min(p(x), q(x)) |
| SpeculativeExactness.ReplacedSum | crates/mlx-core/src/sampling.rs:955-979 | the replaced draws of a token have volume rejected mass times its share of the residual |
| SpeculativeExactness.RejectedIsResidual | crates/mlx-core/src/sampling.rs:946-968 | although the supports differ, the rejected draft mass equals the residual mass |
| SpeculativeExactness.SpeculationIsExact | crates/mlx-core/src/sampling.rs:921-988 | for normalised rows with distinct ids over one vocabulary every token is emitted with probability exactly p(x) |
| SpeculativeExactness.FallbackUnreached | crates/mlx-core/src/sampling.rs:970-972 | without residual mass every draft is accepted, so the fallback has probability zero |
| SpeculativeExactness.EmitsOnlySupport | crates/mlx-core/src/sampling.rs:921-980 | for every draft and coins, without normalisation, an emitted token has positive target mass |
| SparseRows.KeepMask | crates/mlx-core/src/sampling.rs:836-867 | the kept entries are a non-empty prefix of the support, cut as the mode demands |
| SparseRows.KeepUntilReached | crates/mlx-core/src/sampling.rs:840-851 | MTPLX keeps the shortest prefix whose mass reaches top_p, or everything |
| SparseRows.KeepAboveTail | crates/mlx-core/src/sampling.rs:852-862 | the current mode keeps entry j if and only if the mass from j on exceeds the threshold |
| SparseRows.ShortestReachingUnique | crates/mlx-core/src/sampling.rs:840-851 | that shortest prefix is unique |
| SparseRows.CurrentWithinMtplx | crates/mlx-core/src/sampling.rs:840-862 | on the same probabilities the current prefix is contained in the MTPLX one |
| SparseRows.MaxKept | crates/mlx-core/src/sampling.rs:869-881 | the loop finds the largest finite scaled logit of the prefix |
| SparseRows.WriteWeights | crates/mlx-core/src/sampling.rs:887-901 | the loop writes the shifted exponentials of the kept finite entries and their total, touching only its row |
| SparseRows.DivideRow | crates/mlx-core/src/sampling.rs:907-909 | the row, and nothing else, is divided by its total |
| SparseRows.FillRow | crates/mlx-core/src/sampling.rs:831-910 | one row holds the softmax over its cut, or all mass on its first entry |
| SparseRows.FillRows | crates/mlx-core/src/sampling.rs:822-918 | every row of the flat output is filled so, independently of the others |
| SparseRows.RowIsDistribution | crates/mlx-core/src/sampling.rs:869-909 | a row is non-negative, sums to 1, and is positive exactly on the finite entries of its prefix |
| SparseRows.RowIsNormalised | crates/mlx-core/src/sampling.rs:822-918 | a row meets the hypotheses of the exactness theorem |
| SparseRows.RowIsSoftmax | crates/mlx-core/src/sampling.rs:887-909 | subtracting the maximum leaves exp(s_j) over the sum of the kept exponentials |
| SparseRows.CutInNumbers | crates/mlx-core/src/sampling.rs:836-867 | the cut of a row in numbers: everything without a proper top-p, else the shortest prefix reaching it, or the entries whose tail mass exceeds 1 - top_p with its slack |
| SparseRows.MassesInNumbers | crates/mlx-core/src/sampling.rs:844-859 | only finite positive probabilities count as mass |
| SparseRows.RowSupport | crates/mlx-core/src/sampling.rs:869-909 | a finished row over the raw logits is a distribution, positive exactly on the finite entries of its prefix, and all on its first entry when there is none |
| SparseRows.RowRatio | crates/mlx-core/src/sampling.rs:872-909 | over the raw logits, two kept entries are to each other as the exponentials of their logits, divided by the temperature in the current mode and as they are in MTPLX mode |
| NucleusFilter.MinKeptIsLast | crates/mlx-core/src/sampling.rs:442-456 | the threshold is the smallest probability of the shortest descending prefix reaching p |
| NucleusFilter.KeepsTheNucleus | crates/mlx-core/src/sampling.rs:431-471 | the filter keeps that prefix, and beyond it exactly the tokens within 1e-10 of its smallest probability |
| NucleusFilter.FiltersExactlyWhen | crates/mlx-core/src/sampling.rs:409-417 | nothing is filtered if and only if p is at least 1, and p is refused if and only if it is not positive |
| NucleusFilter.KeptMassReachesP | crates/mlx-core/src/sampling.rs:431-471 | the surviving tokens carry at least mass p |
| NucleusFilter.SortedMass | crates/mlx-core/src/sampling.rs:433-439 | sorting moves no mass |
| NucleusFilter.TiesDoNotMatter | crates/mlx-core/src/sampling.rs:431-471 | any two descending orders give the same filter |
| RepetitionCutoff.CheckRepetitionCutoff | crates/mlx-core/src/sampling.rs:1435-1498 | fires if and only if the tail is a long enough run of one token or periodic with some pattern length |
| RepetitionCutoff.LongRun | crates/mlx-core/src/sampling.rs:1450-1463 | the scan finds a run if and only if the last max(2, limit) tokens are equal |
| RepetitionCutoff.RepeatsPattern | crates/mlx-core/src/sampling.rs:1472-1494 | the block comparison succeeds if and only if the last length * repeats tokens have that period |
| RepetitionCutoff.PeriodicTailMeansEqualBlocks | crates/mlx-core/src/sampling.rs:1478-1489 | pointwise periodicity is the same as equality of all blocks with the last one |
| EditDistance.LevenshteinDistance | examples/grpo/lsp.ts:687-708 | the nested loops fill the table of the recurrence |
| EditDistance.FillRow | examples/grpo/lsp.ts:697-705 | one row is filled and no other row changes |
| EditDistance.DiagonalIsOptimal | examples/grpo/lsp.ts:699-703 | taking only the diagonal on equal characters equals the minimum of all three moves |
| EditDistance.LevenshteinIsMetric | examples/grpo/lsp.ts:687-708 | zero if and only if equal, symmetric, triangle inequality |
| EditDistance.NoShorterScript | examples/grpo/lsp.ts:687-708 | no script of insertions, deletions and substitutions is shorter than the distance |
| EditDistance.ScriptOfDistance | examples/grpo/lsp.ts:687-708 | a script of exactly that length exists |
| EditDistance.LevenshteinIsOptimal | examples/grpo/lsp.ts:687-708 | the table's answer is the least number of edits over all scripts |
| EditDistance.WithinBound | examples/grpo/lsp.ts:714 | the bound admits a distance if and only if it is at most 2 or at most half of the target's length |
| EditDistance.FindClosestMatch | examples/grpo/lsp.ts:710-725 | suggests something if and only if some candidate is within 2 edits or within half of the target's length, and then the first candidate of least distance |
| Shuffle.ShuffleArray | examples/grpo/github-dataset.ts:451-457 | the in-place loop performs the swaps of the drawn choices |
| Shuffle.ShuffledPermutes | examples/grpo/github-dataset.ts:451-457 | whatever the draws, the multiset is preserved |
| Shuffle.ChoicesDetermined | examples/grpo/github-dataset.ts:451-457 | on distinct elements different draws give different orders |
| Shuffle.Reachable | examples/grpo/github-dataset.ts:451-457 | every rearrangement is reached by some draws |
| Shuffle.ShuffleIsBijective | examples/grpo/github-dataset.ts:451-457 | draws and permutations of distinct elements correspond one to one, so uniform draws shuffle uniformly |
| Interleave.InterleaveArrays | examples/grpo/github-dataset.ts:462-473 | the loops produce the rounds of the arrays |
| Interleave.InterleavingConserves | examples/grpo/github-dataset.ts:462-473 | arrays of any lengths are interleaved without loss or invention |
| Interleave.PositionLaw | examples/grpo/github-dataset.ts:462-473 | with arrays of one length position i * m + k holds element i of array k |
| Interleave.GenerateSingleScenarioDataset | examples/grpo/github-dataset.ts:602-617 | an unknown id is an error; otherwise a rearrangement of that id's variations, with every prompt under its number as often as its turn comes |
| Interleave.VariationsAreEven | examples/grpo/github-dataset.ts:602-617 | every variation is one of the template's prompts under its own numbered id, and each number comes up as often as its turn in the cycle |
| Interleave.InterleaveByScenarioId | examples/grpo/github-dataset.ts:622-641 | the round robin over the groups filtered by id prefix |
| Interleave.HasBaseExactlyWhen | examples/grpo/github-dataset.ts:624-629 | a scenario belongs to an id if and only if its own id is that id, a dash, and anything behind it |
| Interleave.BaseIsUnique | examples/grpo/github-dataset.ts:624-629 | a scenario belongs to at most one of ids none of which, followed by a dash, starts another |
| Interleave.FilterRecoversPart | examples/grpo/github-dataset.ts:624-629 | filtering the concatenation by such an id gives back exactly what was generated for it |
| Interleave.GroupsAreParts | examples/grpo/github-dataset.ts:624-629 | the groups are the generated parts, in order |
| Interleave.CountsAreTurns | examples/grpo/github-dataset.ts:631-640 | every prefix of the interleaving holds as many examples of an id as it has had turns |
| Interleave.SliceIsBalanced | examples/grpo/github-dataset.ts:660 | a slice of n entries has n entries, is a sub-multiset, and its per-id counts differ by at most one |
| Interleave.GenerateAll | examples/grpo/github-dataset.ts:652-657 | the concatenation of one shuffled dataset per id, or the error of an unknown id |
| Interleave.GenerateMultiScenarioDataset | examples/grpo/github-dataset.ts:647-661 | exactly totalExamples balanced entries taken from what was generated, or the errors |
| Sequences.CountOfBag | examples/grpo/github-dataset.ts:547-559 | the per-category count does not depend on the order |
| Curriculum.GenerateCategory | examples/grpo/github-dataset.ts:491-516 | a category's scenarios are a rearrangement of its cycled templates and prompts |
| Curriculum.ExampleAt | examples/grpo/github-dataset.ts:491-510 | example q * m + k of m templates is template k with its prompt number q |
| Curriculum.GenerateCurriculumDataset | examples/grpo/github-dataset.ts:480-520 | n entries, exactly the generated examples, whatever the shuffles: by category, a quarter read and nine twentieths write, both rounded down, and the rest workflow |
| Fingerprint.BuildModelFingerprint | crates/mlx-core/src/cold_tier.rs:708-807 | the pushes build the component list of the identity the directory establishes, or nothing when it establishes none |
| Fingerprint.TrustedExactlyWhen | crates/mlx-core/src/cold_tier.rs:888-918 | a marker is provenance if and only if it has a revision of 40 hex digits |
| Fingerprint.CoversExactlyWhen | crates/mlx-core/src/cold_tier.rs:863-869 | the manifest covers a directory if and only if every listed shard is one of its files |
| Fingerprint.IdentityExactlyWhen | crates/mlx-core/src/cold_tier.rs:708-807 | a model has an identity if and only if something was materialised, there is a shard, and every shard gives the chosen proof |
| Fingerprint.ManifestPathExactlyWhen | crates/mlx-core/src/cold_tier.rs:742-781 | of the models with an identity exactly those with a 40-digit revision whose files name every shard are taken by metadata; all others by every shard's digest |
| Fingerprint.LittleEndianDigit | crates/mlx-core/src/cold_tier.rs:769-800 | byte i of an integer's component is its i-th digit in base 256 |
| Fingerprint.ListStands | crates/mlx-core/src/cold_tier.rs:737-807 | the hashed list position by position: type, configuration, the tag of the path, three components a shard, marker, index and geometry |
| Fingerprint.PushShards | crates/mlx-core/src/cold_tier.rs:757-781 | three components per shard, or failure at the first unreadable one |
| Fingerprint.ProvenanceInjective | crates/mlx-core/src/cold_tier.rs:874-883 | the bytes repo, NUL, revision determine both when revisions have one length, an absent repo being an empty one |
| Fingerprint.IdentityIsValid | crates/mlx-core/src/cold_tier.rs:812-822 | an established identity has a shard, suffixed shard names and 40-character revisions |
| Fingerprint.EncodeInjective | crates/mlx-core/src/cold_tier.rs:737-807 | the list determines type, config, identity path, shard entries, provenance, index and geometry |
| Fingerprint.FingerprintsAgree | crates/mlx-core/src/cold_tier.rs:708-807 | two directories have equal component lists if and only if they establish equal identities |
| Fingerprint.EntriesDetermineMetadata | crates/mlx-core/src/cold_tier.rs:757-769 | equal manifest entries mean equal names, sizes and modification times |
| ColdRoot.ColdTier.GlobalColdCache | crates/mlx-core/src/cold_tier.rs:92-99 | one lazy open without concurrency, the step that LazyAlone relates to the protocol |
| ColdRoot.ColdTier.InstallColdCacheRoot | crates/mlx-core/src/cold_tier.rs:168-183 | without concurrency: a repeat returns whether it names the installed directory, otherwise true exactly when the slot was empty and the open succeeded |
| ColdRoot.InvStep | crates/mlx-core/src/cold_tier.rs:92-183 | every atomic step of installs and lazy opens keeps the invariant |
| ColdRoot.SlotIsSetOnce | crates/mlx-core/src/cold_tier.rs:92-183 | in every interleaving a set slot and a recorded root never change |
| ColdRoot.SlotComesFrom | crates/mlx-core/src/cold_tier.rs:92-183 | in every interleaving the slot holds what some step put there: an install its own directory; a lazy open nothing if and only if its open failed, else the directory of a non-empty variable, else the default root |
| ColdRoot.LazySeesSlot | crates/mlx-core/src/cold_tier.rs:92-99 | in every interleaving a lazy open returns only from a set slot, so it waits for a running initialiser |
| ColdRoot.RefusedSeesSlot | crates/mlx-core/src/cold_tier.rs:175-181 | in every interleaving an install refused after its open has found the slot set |
| ColdRoot.InstalledFromThenOn | crates/mlx-core/src/cold_tier.rs:168-183 | after an install returned true the slot holds a live manager for exactly its directory, for good |
| ColdRoot.LaterInstall | crates/mlx-core/src/cold_tier.rs:169-174 | an install that starts later returns true if and only if it names the same directory |
| ColdRoot.ConcurrentRepeatIsRefused | crates/mlx-core/src/cold_tier.rs:175-181 | a run in which a concurrent install of the same directory returns false |
| ColdRoot.InstallReturnsTrue | crates/mlx-core/src/cold_tier.rs:168-183 | in every interleaving a finished install returned true if and only if its first check found its own directory recorded or it set the empty slot itself |
| ColdRoot.RepeatReturnsTrue | crates/mlx-core/src/cold_tier.rs:168-183 | of two installs of one directory the one that did not set the slot returned true if and only if its first check came after the root was recorded |
| ColdRoot.InstallAlone | crates/mlx-core/src/cold_tier.rs:168-183 | an uninterrupted install of the protocol does what the one-caller method does |
| ColdRoot.LazyAlone | crates/mlx-core/src/cold_tier.rs:92-99 | an uninterrupted lazy open of the protocol does what the one-caller method does |
| GemmaKeys.StripUndoesNamespace | crates/mlx-core/src/convert_gemma_import.rs:209-232 | stripping a namespaced key, also with a suffix appended, gives back the stripped name |
| GemmaKeys.NamespaceInjective | crates/mlx-core/src/convert_gemma_import.rs:222-232 | distinct names never share an output key |
| GemmaKeys.StripByName | crates/mlx-core/src/convert_gemma_import.rs:209-220 | stripping takes off an optional `model.`, then an optional `language_model.` with an optional `model.` behind it, and nothing else |
| GemmaKeys.NamespaceByName | crates/mlx-core/src/convert_gemma_import.rs:222-232 | vision modules keep their name, all others move into one namespace |
| GemmaKeys.LeftOutByName | crates/mlx-core/src/convert_gemma_import.rs:235-255 | exactly the activation and cache scales, the audio modules and the relative and rotary position tensors are left out |
| GemmaKeys.ParsesExactlyWhen | crates/mlx-core/src/convert_gemma_import.rs:292-300 | a layer number is read if and only if it is decimal digits, with an optional plus sign, of a 64-bit number |
| GemmaKeys.ScheduleMatchesDeclaration | crates/mlx-core/src/convert_gemma_import.rs:79-86 | for every spelling of the layer the derived bits of an MLP equal the declared ones if and only if its digits fit 64 bits and are not a wide layer with a leading zero, or it neither parses nor matches |
| GemmaKeys.ScheduleDiffers | crates/mlx-core/src/convert_gemma_import.rs:292-312 | layers spelled `05` and `+5`, on which they differ |
| GemmaKeys.TextLinearRoute | crates/mlx-core/src/convert_gemma_import.rs:292-312 | for every layer spelling that parses and every module name: 4 bits for attention, 4 up to layer 14 and 2 beyond for MLPs, otherwise no route |
| GemmaImport.RouteByName | crates/mlx-core/src/convert_gemma_import.rs:501-570 | a kept tensor is the scale or the weight of module m if and only if it is named so; the rest is passed on or dropped |
| GemmaImport.PassThroughByName | crates/mlx-core/src/convert_gemma_import.rs:436-471 | a passed-through tensor is transposed if and only if name and rank make it one of the two convolution weights, and cast if and only if it is floating |
| GemmaImport.PutRead | crates/mlx-core/src/convert_gemma_import.rs:501-570 | one step writes its own cell and no other |
| GemmaImport.FillRead | crates/mlx-core/src/convert_gemma_import.rs:501-570 | the first pass leaves in each cell what one of its writers wrote, and nothing without a writer |
| GemmaImport.FirstPassConfluence | crates/mlx-core/src/convert_gemma_import.rs:501-570 | all visit orders give the same buffer after the first pass if and only if no two tensors write different values to one cell |
| GemmaImport.EmbeddingFillsWords | crates/mlx-core/src/utils/gemma_quant_repack.rs:191-220 | an embedding that passes the importer's shape checks never trips an assertion of the per-group repack |
| GemmaImport.ResolvesExactlyWhen | crates/mlx-core/src/convert_gemma_import.rs:572-668 | a module is imported if and only if weight and scale are there and have the dtype, shapes and bits its name asks for, in numbers |
| GemmaImport.FailsAs | crates/mlx-core/src/convert_gemma_import.rs:572-668 | the error of a module that is not imported: missing weight, missing scale, no bits, wrong shape or dtype, rows that do not fill their groups, in this order |
| GemmaImport.ResolvedAs | crates/mlx-core/src/convert_gemma_import.rs:572-668 | an 8-bit weight gives one dequantised tensor without override, any other module the three parts of one triplet under one override |
| GemmaImport.DisjointModules | crates/mlx-core/src/convert_gemma_import.rs:572-666 | two modules never write the same output key |
| GemmaImport.FinishIs | crates/mlx-core/src/convert_gemma_import.rs:572-666 | the second pass succeeds if and only if every module resolves, and leaves what no visit order decides |
| GemmaImport.SecondPassConfluent | crates/mlx-core/src/convert_gemma_import.rs:572-666 | all visit orders of the buffered modules fail, or all give one result |
| GemmaImport.ImportConfluent | crates/mlx-core/src/convert_gemma_import.rs:501-670 | without clashes every pair of visit orders gives the same outputs and overrides, or every pair fails |
| GemmaImport.CoverageFailure | crates/mlx-core/src/convert_gemma_import.rs:268-287 | the coverage check fails if and only if a passed-through output ends in `.scales` without an override |
| GemmaImport.ScalesName | crates/mlx-core/src/convert_gemma_import.rs:222-232 | an output key ends in `.scales` if and only if the stripped name does or is `scales` |
| GemmaImport.UncoveredIsNamedScales | crates/mlx-core/src/convert_gemma_import.rs:268-287 | so only a raw pass-through tensor with such a name can make the check fail |
| GemmaImport.OverrideIsHonest | crates/mlx-core/src/convert_gemma_import.rs:619-629 | every override states the bits, group size and mode of the three tensors written for its module |
| GemmaImport.TextLinearBitsByName | crates/mlx-core/src/convert_gemma_import.rs:292-312 | a module has given bits if and only if it is, by name, an attention module and they are 4, or an MLP module and they are 4 up to layer 14 and 2 beyond |
| GemmaImport.OverrideBitsByName | crates/mlx-core/src/convert_gemma_import.rs:644-666 | every override says 128 columns to a group, affine, and the bits of its module's name: 2 for head and embedding, 4 for the per-layer embedding, the layer rule otherwise |
| GemmaImport.AffineHasOverride | crates/mlx-core/src/convert_gemma_import.rs:382-389 | every affine tensor in the output is one of the three of a module with such an override |
| GemmaImport.ModuleFromRaw | crates/mlx-core/src/convert_gemma_import.rs:501-583 | a resolved module is the pair of one raw weight and one raw scale of that name |
| GemmaImport.EveryKeptTensorIsUsed | crates/mlx-core/src/convert_gemma_import.rs:501-666 | each kept tensor whose cell no other value is written to is half of its module's pair, or is in the output under its key if and only if no module writes that key |
| GemmaImport.OverwriteByName | crates/mlx-core/src/convert_gemma_import.rs:222-232 | a module overwrites a passed-through tensor only under that tensor's own stripped name |
| GemmaImport.EveryOutputComesFromRaw | crates/mlx-core/src/convert_gemma_import.rs:501-666 | every output is a raw tensor passed through or a part of one paired weight and scale |
| GemmaImporter.FirstPass | crates/mlx-core/src/convert_gemma_import.rs:501-570 | the loop over the raw map leaves the buffer of some visit order |
| GemmaImporter.SecondPass | crates/mlx-core/src/convert_gemma_import.rs:572-666 | the loop over the modules ends as for some visit order, and rejects with the error of a module that does not resolve |
| GemmaImporter.VerifyOverrideCoverage | crates/mlx-core/src/convert_gemma_import.rs:268-287 | reports nothing if and only if every `.scales` output has an override, and otherwise one that has none |
| GemmaImporter.ImportGemmaPrequantized | crates/mlx-core/src/convert_gemma_import.rs:483-671 | the result is that of some pair of visit orders, and without clashes that of every pair |
| GemmaImporter.ImportedOverrides | crates/mlx-core/src/convert_gemma_import.rs:483-671 | so in an import's result all overrides share group size and mode, and each carries the bits of its name |
| GemmaImporter.ResultIsOrderFree | crates/mlx-core/src/convert_gemma_import.rs:483-671 | without clashes one pair of visit orders decides verdict and outputs for all |
| GemmaImporter.TopLevelQuantMetadata | crates/mlx-core/src/convert_gemma_import.rs:139-205 | succeeds if and only if mode and group size are uniform, and reports them with the most frequent width, the wider on a tie |
| GemmaImporter.MaxByCount | crates/mlx-core/src/convert_gemma_import.rs:200-204 | the maximum by count, then by width, in any order of the counts |
| GemmaConfluence.QuantConfluent | crates/mlx-core/src/convert_gemma_import.rs:501-570 | when the parts agree every visit order buffers the same modules |
| GemmaConfluence.OrderFreeImports | crates/mlx-core/src/convert_gemma_import.rs:483-671 | under the condition one successful pair of visit orders decides the result of every pair |
| GemmaConfluence.NecessaryParts | crates/mlx-core/src/convert_gemma_import.rs:501-566 | if every pair gives one result, no module is offered two different weights or scales |
| GemmaConfluence.NecessaryOutputs | crates/mlx-core/src/convert_gemma_import.rs:567-570 | if every pair gives one result, clashing passed-through tensors are overwritten by a module |
| GemmaConfluence.ImportConfluence | crates/mlx-core/src/convert_gemma_import.rs:483-671 | when some pair of visit orders imports, all pairs agree if and only if no module is offered two weights or scales and every output clash is overwritten |
| GemmaConfluence.OrdersAgree | crates/mlx-core/src/convert_gemma_import.rs:483-671 | for every checkpoint all pairs of visit orders agree if and only if all fail or that condition holds |
| GemmaWitnesses.TwoScalesDiverge | crates/mlx-core/src/convert_gemma_import.rs:509-532 | a checkpoint that imports under two visit orders with different results |
| GemmaWitnesses.PassThroughOverwritten | crates/mlx-core/src/convert_gemma_import.rs:548-666 | a checkpoint that imports and loses a pass-through tensor in every pair of visit orders |
| GemmaWitnesses.BareScalesRejected | crates/mlx-core/src/convert_gemma_import.rs:268-287 | a checkpoint of one tensor named `scales` that only the coverage check rejects, in every pair of visit orders |
| CacheLimit.CapUsesTheBudget | crates/mlx-core/src/cache_limit.rs:414-425 | for wired > 0 weights, overhead, headroom and cap add up to the wired limit, or the cap is the 1 GiB floor |
| CacheLimit.BudgetInNumbers | crates/mlx-core/src/cache_limit.rs:382-425 | the cap is what weights, driver share and user share leave of the wired limit, and 1 GiB at least; the driver share is the larger of 4 GiB and a twentieth, the user share the variable's bytes or the larger of 4 GiB and a tenth |
| CacheLimit.CapInNumbers | crates/mlx-core/src/cache_limit.rs:206-425 | over every run the cap after a successful recompute obeys that law for the live weights |
| CacheLimit.OverrideInNumbers | crates/mlx-core/src/cache_limit.rs:264-296 | over every run an override that does not round to zero sets the nearest number of bytes, cut off at 2^64 - 1 |
| CacheLimit.DisabledKeepsCap | crates/mlx-core/src/cache_limit.rs:264-279 | over every run an override of zero or below leaves the cap alone |
| CacheLimit.CapRisesExactlyWhen | crates/mlx-core/src/cache_limit.rs:414-425 | a new total computes a higher cap if and only if it is smaller and leaves more than the floor |
| CacheLimit.CacheLimitCoordinator.Register | crates/mlx-core/src/cache_limit.rs:206-222 | a fresh id, the total recorded, and the recompute |
| CacheLimit.CacheLimitCoordinator.Unregister | crates/mlx-core/src/cache_limit.rs:224-232 | the total forgotten and recomputed if and only if the id was live |
| CacheLimit.CacheLimitCoordinator.RecomputeLocked | crates/mlx-core/src/cache_limit.rs:260-374 | override, disabling, empty and zero totals, memo hit, and the fallible call |
| CacheLimit.SaturatingSum | crates/mlx-core/src/cache_limit.rs:318-322 | the saturating fold in any order is the true sum cut off at 2^64 - 1 |
| CacheLimit.TotalRemove | crates/mlx-core/src/cache_limit.rs:318-322 | the total does not depend on the order of summation |
| CacheLimit.TotalAdd | crates/mlx-core/src/cache_limit.rs:317-322 | a new guard adds its weights to the live total |
| CacheLimit.MemoIsAlwaysCap | crates/mlx-core/src/cache_limit.rs:260-374 | over every run with arbitrary failures and environment values a non-zero memo equals the allocator's cap |
| CacheLimit.CapAfterEvent | crates/mlx-core/src/cache_limit.rs:206-374 | after an event without override, with live weights and a successful call, the cap is the one computed for the saturated live sum |
| CacheLimit.RegisterRaisesExactlyWhen | crates/mlx-core/src/cache_limit.rs:206-374 | over every run, environment and cap in force, a registration raises the cap if and only if the call succeeds and the override asks for more, or without one the cap was below the floor or the live total leaves more than it |
| CacheLimit.ComputedCapNeverRises | crates/mlx-core/src/cache_limit.rs:206-374 | a cap computed for the live weights in the same environment does not rise on a registration |
| CacheLimit.ReloadRaisesCap | crates/mlx-core/src/cache_limit.rs:307-312 | a run of load, unload, load that raises the cap |
| CacheLimit.ZeroCapExactlyWhen | crates/mlx-core/src/cache_limit.rs:264-296 | over every run a cap of zero is set if and only if a recompute succeeds under an override that is not a number or positive below half a byte, and the memo is not zero already |
| CacheLimit.ZeroCaps | crates/mlx-core/src/cache_limit.rs:264-296 | first loads under `nan` and under `1e-10` get a cap of zero |
| CacheLimit.ProfilesAreLive | crates/mlx-core/src/cache_limit.rs:206-232 | over every run, until the id counter saturates, the profiles are exactly the models loaded and not dropped |
| CacheLimit.RegisterThenDrop | crates/mlx-core/src/cache_limit.rs:206-253 | loading and dropping a model restores the live totals and the cap computed for them |
| ModelThread.FlowStep | crates/mlx-core/src/model_thread.rs:48-67 | no step of worker, senders or owner loses, repeats or reorders a command |
| ModelThread.InvStep | crates/mlx-core/src/model_thread.rs:33-131 | every step keeps the whole invariant |
| ModelThread.SendersAreCounted | crates/mlx-core/src/model_thread.rs:33-131 | in every interleaving the senders are the clones made and not dropped and the owner's own until given up; who may clone, drop and send follows from the counts |
| ModelThread.OwnerActs | crates/mlx-core/src/model_thread.rs:101-131 | the owner may start a call, or drop the thread, exactly when it is not inside a call and has not dropped it |
| ModelThread.HandledInSendOrder | crates/mlx-core/src/model_thread.rs:33-94 | in every interleaving the handled commands are a prefix of the sent ones, and none precedes a successful initialisation |
| ModelThread.ShutdownServesEverything | crates/mlx-core/src/model_thread.rs:101-117 | after Ok from the join worker and state are gone, and every accepted command was handled if and only if initialisation succeeded or none had been accepted |
| ModelThread.ExitServesEverything | crates/mlx-core/src/model_thread.rs:65-131 | joined or detached, a worker that left its loop has handled everything sent, and no sender is left |
| ModelThread.RepeatedShutdown | crates/mlx-core/src/model_thread.rs:101-117 | after a repeated Ok every accepted command was handled if and only if initialisation succeeded without a later panic or none had been accepted |
| ModelThread.RepeatHidesPanic | crates/mlx-core/src/model_thread.rs:111-116 | a run whose second shutdown returns Ok although a command was lost |
| ModelThread.JoinsAsSoleSender | crates/mlx-core/src/model_thread.rs:101-110 | between the count and the join nobody else holds a sender |
| ModelThread.ClosedExactlyWhen | crates/mlx-core/src/model_thread.rs:65-131 | while the worker lives the channel is closed if and only if no sender is left |
| ModelThread.ClosedMakesProgress | crates/mlx-core/src/model_thread.rs:65-131 | once the channel is closed the worker is never stuck and every step lowers the measure |
| ModelThread.ClosedTerminates | crates/mlx-core/src/model_thread.rs:101-131 | so a join returns and a dropped thread ends after a bounded number of steps |
| ModelThread.ReplyComesCloser | crates/mlx-core/src/model_thread.rs:154-164 | a blocked caller's reply, or its loss with the worker, comes closer with every worker step |
| ModelThread.ServingStep | crates/mlx-core/src/model_thread.rs:51-68 | the worker's steps do not change what it will have handled in the end |
| ModelThread.Thread.SpawnWithInit | crates/mlx-core/src/model_thread.rs:33-75 | a new thread has an empty queue, one sender and an uninitialised worker |
| ModelThread.Thread.Send | crates/mlx-core/src/model_thread.rs:86-92 | queues at the end, or reports a taken sender or an exited worker |
| ModelThread.Thread.Receive | crates/mlx-core/src/model_thread.rs:65-67 | the receive loop is a run of the protocol that ends with the worker gone |
| ModelThread.Thread.RunToExit | crates/mlx-core/src/model_thread.rs:51-68 | initialisation and loop handle the pending commands up to the first panic |
| ModelThread.Thread.ShutdownAndJoin | crates/mlx-core/src/model_thread.rs:101-117 | refuses and changes nothing while clones live; otherwise joins, having handled the pending commands up to the first panic, and reports the panic |
| ModelThread.Thread.Drop | crates/mlx-core/src/model_thread.rs:120-131 | gives up the sender without joining |
| MetallibScan.OccurrencesAreApart | packages/core/metallib-select.ts:131-156 | two occurrences of the needle never overlap |
| MetallibScan.OccursExactlyWhen | packages/core/metallib-select.ts:131-156 | an occurrence is the needle with anything, or nothing, before and behind it |
| MetallibScan.CheckedIsOutDir | packages/core/metallib-select.ts:119 | the deterministic check of the directory group accepts exactly the pattern's group |
| MetallibScan.HexIs | packages/core/metallib-select.ts:119 | the hash group of the check is one or more of the sixteen lower-case hex digits |
| MetallibScan.OneLineIs | packages/core/metallib-select.ts:119 | the free group of the check excludes exactly the four line terminators |
| MetallibScan.MatchIsPattern | packages/core/metallib-select.ts:119 | a match with directory d if and only if the string is d followed by one of the two tails |
| MetallibScan.ExpandHit | packages/core/metallib-select.ts:137-143 | the two cursors cut out the bounded NUL-free string around the hit |
| MetallibScan.RunAround | packages/core/metallib-select.ts:137-143 | the cursors cut out the whole maximal run around a hit if and only if it ends within 4096 bytes on either side |
| MetallibScan.FoundNext | packages/core/metallib-select.ts:156 | jumping by the needle's length misses no occurrence |
| MetallibScan.ExtractBakedMetallibBinding | packages/core/metallib-select.ts:130-167 | nothing, one binding or an error exactly for zero, one or several distinct matching strings |
| MetallibScan.CandidatesAreRuns | packages/core/metallib-select.ts:137-144 | when the needle-bearing runs end within the cursors' reach on either side the cut-out strings are the maximal NUL-free runs |
| MetallibScan.ScanDecides | packages/core/metallib-select.ts:130-167 | so the verdict is that of the distinct matching runs of the binary |
| MetallibFloor.CompareVersions | packages/core/metallib-select.ts:403-412 | negative, positive or zero if and only if the first version is older, newer or equal up to trailing zeros |
| MetallibFloor.ComponentInNumbers | packages/core/metallib-select.ts:404-405 | a component is n if and only if it is written as n, behind white space and a sign and whatever follows, or n is 0 and it is not written as a number |
| MetallibFloor.SpaceIs | packages/core/metallib-select.ts:404-405 | the white space in front of a number is that of ECMAScript |
| MetallibFloor.OlderAtDifference | packages/core/metallib-select.ts:406-410 | of two versions that first differ at a common position the one with the smaller number there is older |
| MetallibFloor.OlderByExtension | packages/core/metallib-select.ts:406-410 | trailing zeros do not matter, and the first other component that only one version has decides |
| MetallibFloor.OlderIsTotal | packages/core/metallib-select.ts:403-412 | of two versions exactly one is older unless they are the same |
| MetallibFloor.OlderTransitive | packages/core/metallib-select.ts:403-412 | the order is transitive and respects equality up to trailing zeros |
| MetallibFloor.StampIsRead | packages/core/metallib-select.ts:553-566 | a container stamped with a version reads as that version's text |
| MetallibFloor.ReadIsStamped | packages/core/metallib-select.ts:553-566 | whatever reads as a stamp is the header of some version, minor and update in separate bytes |
| MetallibFloor.StampReadsBack | packages/core/metallib-select.ts:404-405 | a printed stamp parses back to its version |
| MetallibFloor.AssertMetallibFloor | packages/core/metallib-select.ts:578-608 | refuses a recognised stamp if and only if it is newer than the floor, an unrecognised header if and only if strict |
| MetallibFloor.ShouldExpectNaxKernels | packages/core/metallib-select.ts:430-437 | true if and only if neither the SDK is older than 26.2 nor the effective target older than 26.0 |
| DecodeProfiler.Profiler.RecordMtpCycle | crates/mlx-core/src/decode_profiler.rs:311-328 | appends the cycle to the history that the counters count, whether or not timing is enabled |
| DecodeProfiler.CountersCountCycles | crates/mlx-core/src/decode_profiler.rs:311-328 | each per-position counter is the number of cycles that drafted, or accepted, that position |
| DecodeProfiler.PositionsDecline | crates/mlx-core/src/decode_profiler.rs:300-328 | both arrays are non-increasing and accept <= attempt <= cycles at every position |
| DecodeProfiler.PositionsSumToTotals | crates/mlx-core/src/decode_profiler.rs:311-328 | the arrays sum to the totals of accepted and of attempted drafts |
| DecodeProfiler.SummaryMeans | crates/mlx-core/src/decode_profiler.rs:381-422 | each rate is the share of a position's drafts that were accepted, the zero guard is never needed, and the mean is at most the mean depth |
| DecodeProfiler.Profiler.Begin | crates/mlx-core/src/decode_profiler.rs:229-235 | a step of the run theorems: appends its call to the history when enabled |
| DecodeProfiler.Profiler.End | crates/mlx-core/src/decode_profiler.rs:240-248 | a step of the run theorems, stray ends included |
| DecodeProfiler.Profiler.RecordDuration | crates/mlx-core/src/decode_profiler.rs:255-262 | a step of the run theorems: a completed span without the stack |
| DecodeProfiler.EventStats | crates/mlx-core/src/decode_profiler.rs:229-286 | one call accumulates the span it completes under that span's phase, and nothing else |
| DecodeProfiler.Profiler.Report | crates/mlx-core/src/decode_profiler.rs:381-397 | whatever has been called, the reported summary, order and statistics are those of the recorded cycles, the first-seen names and the completed spans |
| DecodeProfiler.OrderIsFirstSeen | crates/mlx-core/src/decode_profiler.rs:229-286 | for every run, stray ends included, the order lists the registered phases once each in first-seen order |
| DecodeProfiler.SpansAreAccumulated | crates/mlx-core/src/decode_profiler.rs:229-286 | each phase holds the time and number of exactly its completed spans |
| ResumeLoop.Train | examples/grpo/train-github-tool.ts:545-608 | a run executes exactly the global steps from its first step to the end in order; the skip branch is reached exactly on an empty data set at step 0 |
| ResumeLoop.TrainEpoch | examples/grpo/train-github-tool.ts:605-608 | the batch loop executes the remaining batches of the epoch |
| ResumeLoop.BatchStarts | examples/grpo/train-github-tool.ts:545 | a batch starts inside the data set if and only if its index is below the steps per epoch |
| ResumeLoop.ResumeIsSeamless | examples/grpo/train-github-tool.ts:545-608 | for any positive step the prefix and the resumed run together are the uninterrupted run, whatever epoch was recorded |
| ResumeLoop.EveryBatchIsInside | examples/grpo/train-github-tool.ts:587-605 | step g is one batch of one epoch, inside the data set, and g is recovered from it |
| ResumeLoop.CombineTurns | examples/grpo/train-github-tool.ts:649-708 | the loop concatenates each first turn with its second, tokens and log-probabilities alike, and adds the lengths |
| ResumeLoop.SegmentsAreRecovered | examples/grpo/train-github-tool.ts:649-708 | the reported lengths cut the flattened array back into turn 1 followed by turn 2, and sum to its size |

## Left out

- The device half: logits, top-k partition, argsort, log-softmax, transposes and casts are inputs or symbolic terms; no kernel, FFI binding or N-API type is modelled.
- IEEE rounding: the theorems are over reals. The sampler's coin may equal 1, which admits the rounding of the drawn point up to the total; the f32 boundary of greedy temperatures and the f64 rounding of byte counts are not modelled.
- The shape and configuration checks in front of the sparse rows, `positive_rank`, `top_entry`, the penalties, and the dense `accept_with_residual`, whose draw uses a generator that is not visible.
- SpeculativeExactness.SpeculationIsExact: one draft position; the chaining of several positions in a cycle belongs to the callers.
- EditDistance.FindClosestMatch: lower-casing is a function given as input; the query memo, the AST walk and the regular expressions of the language service are left out.
- Interleave.GenerateMultiScenarioDataset: scenarios carry id, category and prompt only; the placeholder contents are an input function, and the templates are assumed to have prompts, as the static table does.
- Curriculum.GenerateCurriculumDataset: the shares are exact fractions; the second shuffle of `generateShuffledDataset` adds nothing to Shuffle.
- Fingerprint.BuildModelFingerprint: stops at the component list; `cold_cache` and its hash are not part of this model. Directory listing and sorting, JSON parsing and SHA-256 are inputs.
- ColdRoot.InvStep: opening a directory succeeds or fails by an input; symbolic-link refusal and the capture budget are left out.
- GemmaConfluence.ImportConfluence: outputs are compared as terms over their weight and scale tensors, so two tensors that differ only in shape, dtype or where the arithmetic hides it count as different; the repack's assertions are guards of the model, its arithmetic is not.
- GemmaImport.ImportConfluent: errors of device calls inside the emit helpers and the schedule guard `validate_e2b_qat_schedule` are not modelled.
- GemmaImporter.TopLevelQuantMetadata: overrides are typed records, so the errors for missing or non-integer fields do not arise.
- CacheLimit.CacheLimitCoordinator.RecomputeLocked: the string of an environment variable is already parsed; logging is left out. A cap never set is the allocator's own default, which has no number here.
- ModelThread.Thread.ShutdownAndJoin: whether initialisation and each handler succeed are inputs; the interleaved behaviour of several threads is the protocol on values above the class, and weak senders are not modelled.
- MetallibScan.ExtractBakedMetallibBinding: UTF-8 decoding is a function given as input, and path normalisation of the bound directory is left out.
- MetallibFloor.CompareVersions: component numbers are unbounded integers.
- `selectMetallib`, `collectMetallibCandidates` and the integrity gates: file-system probes with little logic between them.
- DecodeProfiler.Profiler.End: clock readings are numbers given as input; the report text, token counts and memory snapshots are left out.
- ResumeLoop.Train: generation, rewards, the training engine and checkpoint files are left out; a step is the batch it trains on.
