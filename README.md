# fwdpy: allele-age summaries, the sample_n sampler and the Eyre-Walker 2010 trait model

This project models three pieces of fwdpy, a Python/C++ package for forward-time
population-genetic simulation, and proves properties of the model.

- **Trajectory analysis** (`fwdpy/fwdpy/allele_ages.cc`, module `AlleleAges`).
  Each selected mutation has a frequency trajectory: a sequence of (generation, frequency)
  points. The model covers four operations:
  - `allele_ages_details` turns trajectories into age summaries. A summary holds the effect
    size, the maximum frequency, the last frequency, the origin and the sojourn length. The
    maximum is found with the `<=` comparator given to `std::max_element`, so on a tie the
    last maximal point is chosen.
  - `merge_trajectories_details` merges two trajectory sets.
  - `tidy_trajectory_info` flattens trajectories into one row per point.
  - `passes_minfreq_test` is the minimum-frequency filter that `tidy_trajectory_info` uses.

  A trajectory set is an ordered sequence of (mutation key, history) entries, which is how
  the source's vector of pairs is iterated. The three loops are methods. Each is proved equal
  to a left-fold specification function, and the properties are proved about those functions.
- **The sample_n sampler** (`include/sampler_sample_n.hpp`, module `SamplerSampleN`).
  `SampleN` is a class with the state the sampler keeps:
  - the result sequence `rv`;
  - the seed it draws from the upstream generator;
  - the two output paths;
  - the locus boundaries;
  - the remove-fixed flag.

  The model covers:
  - the constructor, with its optional truncation of the output files;
  - the single-locus and multi-locus sampling calls, covering deduplication of the selected
    block, appending blocks to the output files, and appending results;
  - `final()`.

  Removing adjacent duplicates (`std::unique` followed by `erase`) is an in-place method on an
  array. It is proved equal to a specification function `Dedup`. Output files are a
  `FileSystem` object: a map from path to the sequence of blocks written to it.
- **The Eyre-Walker 2010 model** (`fwdpy/qtrait/ew2010.cc`, module `Ew2010`).
  - `ew2010_assign_effects` gives every non-neutral mutation a record with three fields:
    - its selection coefficient;
    - an effect `d * (4N|s|)^tau * (1 + noise)`, negated when s < 0, where the sign d comes
      from a uniform draw and the noise from a Gaussian draw;
    - its scaled frequency 2n/4N.

    It fails when two non-neutral mutations share a position.
  - `ew2010_traits_cpp` sums the effects on both gametes of every diploid. It fails when a
    carried position has no record.

  The random-number generator is the `GslRng.Rng` class. Each draw is a fixed function of
  the draws made before it, so results are stated in terms of the generator's draw log.

`Wrappers` holds the `Option` and `Result` types. A C++ exception becomes a `Failure`.

## Model

| member | source | states |
|---|---|---|
| AlleleAges.MaxElementFrom | fwdpy/fwdpy/allele_ages.cc:30-34 | the scan started after a running best returns a point no other point exceeds, and every later point is strictly lower (the last maximum) |
| AlleleAges.MaxElement | fwdpy/fwdpy/allele_ages.cc:30-34 | for a non-empty history, the chosen point has maximal frequency, and every point after it has strictly lower frequency, so ties go to the last one |
| AlleleAges.LastMaximumIsUnique | fwdpy/fwdpy/allele_ages.cc:30-34 | any index that is maximal with strictly lower points after it is the index max_element returns, so the tie-break determines the point |
| AlleleAges.MaxElementTieExample | fwdpy/fwdpy/allele_ages.cc:30-34 | for points (0,0.5),(1,0.8),(2,0.8), the maximum chosen is the third point, not the second |
| AlleleAges.PassesMinFreqTest | fwdpy/fwdpy/allele_ages.cc:74-91 | passes exactly when minfreq <= 0 or some recorded frequency reaches minfreq |
| AlleleAges.Qualifies | fwdpy/fwdpy/allele_ages.cc:28-36 | a non-empty trajectory is summarised exactly when it has at least minsojourn points and some frequency reaches minfreq |
| AlleleAges.Summary | fwdpy/fwdpy/allele_ages.cc:38-41 | the record carries the key's effect size and origin, the last frequency, the point count as sojourn, and a maximum frequency that is attained and bounds all points |
| AlleleAges.SummarizeAll | fwdpy/fwdpy/allele_ages.cc:19-44 | the loop of allele_ages_details as a left fold: it fails only with the empty-history error; on success it emits at most one record per trajectory, and every record has at least minsojourn points and a maximum frequency of at least minfreq that bounds its last frequency |
| AlleleAges.AgeSummaries | fwdpy/fwdpy/allele_ages.cc:15-44 | allele_ages_details as a function: a negative minfreq is the negative-minfreq error; on success minfreq is non-negative, there is at most one record per trajectory, and every record passes the sojourn and frequency thresholds |
| AlleleAges.SummarizeAllFailurePersists | fwdpy/fwdpy/allele_ages.cc:19-27 | once an empty trajectory has been met, the whole call fails with that error whatever follows |
| AlleleAges.SummarizeAllFailure | fwdpy/fwdpy/allele_ages.cc:24-27 | the loop fails exactly when some trajectory is empty, and the error is the empty-history error |
| AlleleAges.AlleleAgesFailure | fwdpy/fwdpy/allele_ages.cc:15-27 | fails exactly when minfreq < 0 or some trajectory is empty; a negative minfreq is reported first, before any trajectory is looked at |
| AlleleAges.SummarizeAllRecords | fwdpy/fwdpy/allele_ages.cc:19-44 | on success, the k-th record is the summary of the k-th qualifying trajectory, and there is one record per qualifying trajectory |
| AlleleAges.SummarizeAllSelection | fwdpy/fwdpy/allele_ages.cc:19-44 | on success, the output is, in input order, the summaries of exactly those trajectories that qualify and no others |
| AlleleAges.AlleleAgesDetails | fwdpy/fwdpy/allele_ages.cc:11-46 | the imperative loop returns the same result or error as the specification of allele_ages_details |
| AlleleAges.FindKey | fwdpy/fwdpy/allele_ages.cc:57-60 | find_if returns the first entry with the key, or none exactly when no entry has it |
| AlleleAges.Insert | fwdpy/fwdpy/allele_ages.cc:57-69 | one step of the merge loop: the set grows by at most one entry, and by exactly one exactly when no entry already has the key |
| AlleleAges.InsertShape | fwdpy/fwdpy/allele_ages.cc:57-69 | when no entry has the key, the entry is appended at the end; otherwise the first entry with the key keeps its position and gains exactly the entry's points at the end of its history, and every other entry is unchanged |
| AlleleAges.Merge | fwdpy/fwdpy/allele_ages.cc:52-70 | merge_trajectories_details as a fold of Insert over the second set: the result is at least as long as the first set and at most one entry longer per entry of the second set (the entries themselves are stated by MergePrefix and MergePointsOf) |
| AlleleAges.MergeExample | fwdpy/fwdpy/allele_ages.cc:52-70 | merging {m:[(0,0.1)]} with {m:[(5,0.3)]} yields {m:[(0,0.1),(5,0.3)]} |
| AlleleAges.MergePrefix | fwdpy/fwdpy/allele_ages.cc:52-70 | the first set's entries keep their keys and positions, and their histories are prefixes of the merged ones; every later entry has a key from the second set |
| AlleleAges.MergeUniqueKeys | fwdpy/fwdpy/allele_ages.cc:55-69 | merging into a set with distinct keys keeps the keys distinct |
| AlleleAges.MergeTotalPoints | fwdpy/fwdpy/allele_ages.cc:52-70 | the merged set holds exactly as many points as the two inputs together |
| AlleleAges.InsertKeys | fwdpy/fwdpy/allele_ages.cc:57-69 | inserting one entry adds its key to the key set and no other key |
| AlleleAges.MergeKeys | fwdpy/fwdpy/allele_ages.cc:52-70 | the keys of the merge are the union of the keys of the inputs |
| AlleleAges.InsertPointsOf | fwdpy/fwdpy/allele_ages.cc:57-69 | after inserting one entry, the points stored under a key are the old ones followed by the entry's, if the entry has that key |
| AlleleAges.MergePointsOf | fwdpy/fwdpy/allele_ages.cc:52-70 | for distinct keys in the first set, every key's merged history is its history in the first set followed by its histories in the second, in order, neither re-sorted nor deduplicated |
| AlleleAges.MergeTrajectoriesDetails | fwdpy/fwdpy/allele_ages.cc:48-72 | the imperative loop returns the specification of merge_trajectories_details |
| AlleleAges.Included | fwdpy/fwdpy/allele_ages.cc:108-112 | the five-part filter: a trajectory is included exactly when it is non-empty, has at least minSojourn points or ends at frequency exactly 1.0, arose no later than removeAroseAfter, was last seen after removeGoneBefore, and, when minFreq > 0, some frequency reaches minFreq |
| AlleleAges.Tidy | fwdpy/fwdpy/allele_ages.cc:102-122 | tidy_trajectory_info as a left fold; the number of rows is the number of points of the included trajectories |
| AlleleAges.TidyAppend | fwdpy/fwdpy/allele_ages.cc:102-122 | tidying a concatenation gives the tidied parts concatenated, so each trajectory contributes independently and in order |
| AlleleAges.TidySingle | fwdpy/fwdpy/allele_ages.cc:108-119 | one trajectory gives one row per point if it passes all the filters, and nothing otherwise |
| AlleleAges.TidyAround | fwdpy/fwdpy/allele_ages.cc:103-121 | the rows are those of the trajectories before i, then trajectory i's, then those after it |
| AlleleAges.TidyRowAt | fwdpy/fwdpy/allele_ages.cc:114-119 | point k of an included trajectory i appears, after the rows of earlier trajectories, as a row with the trajectory's origin, position, effect and label and the point's generation and frequency |
| AlleleAges.TidySkipsEmpty | fwdpy/fwdpy/allele_ages.cc:108 | an empty trajectory contributes no rows and causes no error |
| AlleleAges.FixationBypassesSojourn | fwdpy/fwdpy/allele_ages.cc:108-109 | a trajectory ending at frequency 1.0 is included exactly when it would be with no sojourn threshold, so minSojourn never excludes a fixation |
| AlleleAges.TidyTrajectoryInfo | fwdpy/fwdpy/allele_ages.cc:93-123 | the imperative loop returns the specification of tidy_trajectory_info |
| SamplerSampleN.Dedup | include/sampler_sample_n.hpp:52-54 | the block that std::unique and erase keep: never longer than the input, and a non-empty block keeps its first and its last entry |
| SamplerSampleN.DedupNoAdjacent | include/sampler_sample_n.hpp:52-54 | the deduplicated block has no two equal adjacent entries |
| SamplerSampleN.RunStartsExactly | include/sampler_sample_n.hpp:52-54 | the run-start positions are increasing and in range, and they are exactly the positions where an entry differs from its predecessor |
| SamplerSampleN.DedupAtRunStarts | include/sampler_sample_n.hpp:52-54 | the deduplicated block is the input read at its run starts |
| SamplerSampleN.DedupSelection | include/sampler_sample_n.hpp:52-54 | the deduplicated block keeps exactly the first entry of every run of equal entries, in order |
| SamplerSampleN.DedupSameElements | include/sampler_sample_n.hpp:52-54 | deduplication keeps every distinct entry and adds none |
| SamplerSampleN.DedupIdentity | include/sampler_sample_n.hpp:52-54 | deduplication leaves a block unchanged exactly when it has no adjacent duplicates |
| SamplerSampleN.DedupIdempotent | include/sampler_sample_n.hpp:52-54 | deduplicating twice is the same as deduplicating once |
| SamplerSampleN.Unique | include/sampler_sample_n.hpp:52-54 | the in-place loop leaves the deduplicated block in the first k slots of the array |
| SamplerSampleN.RemoveRedundantSelectedFixations | include/sampler_sample_n.hpp:40-55 | the neutral block is untouched, and the selected block becomes its deduplication, with no adjacent duplicates |
| SamplerSampleN.LogBlocks | include/sampler_sample_n.hpp:63-80 | writing to a non-empty path appends the blocks to that file only; an empty path writes nothing |
| SamplerSampleN.Truncated | include/sampler_sample_n.hpp:157-180 | truncating a non-empty path empties that file and no other |
| SamplerSampleN.WrittenStreams | include/sampler_sample_n.hpp:63-80 | after one call, the neutral file gains the neutral blocks, the selected file gains the selected blocks, a shared path gets neutral then selected, and other files are unchanged |
| SamplerSampleN.FileSystem.Truncate | include/sampler_sample_n.hpp:161-168 | opening in "wb" mode succeeds exactly when the path can be opened, and then empties that file |
| SamplerSampleN.FileSystem.OpenAppend | include/sampler_sample_n.hpp:65 | opening in "ab" mode creates the file if it is missing and keeps its contents |
| SamplerSampleN.FileSystem.Write | include/sampler_sample_n.hpp:69 | writing appends one block to the open file |
| SamplerSampleN.CleanedAll | include/sampler_sample_n.hpp:92-95 | every locus keeps its neutral block and has its selected block deduplicated |
| SamplerSampleN.CleanSamples | include/sampler_sample_n.hpp:92-95 | the per-locus deduplication loop computes the cleaned samples |
| SamplerSampleN.LocusResults | include/sampler_sample_n.hpp:124-130 | one result per locus, in locus order, pairing each locus's sample with the details of its selected block computed for locus index i |
| SamplerSampleN.SampleN.constructor | include/sampler_sample_n.hpp:144-148 | a new sampler has no results and stores the sample size, seed, paths, boundaries and remove-fixed flag |
| SamplerSampleN.SampleN.Create | include/sampler_sample_n.hpp:138-182 | exactly one raw draw from the upstream generator seeds the sampler. With append, no file is touched. Otherwise the neutral and then the selected non-empty path are truncated, and the first that cannot be opened is reported. As in C++, rfixed and append default to true and the boundaries to none |
| SamplerSampleN.SampleN.SampleSingleLocus | include/sampler_sample_n.hpp:58-85 | appends the neutral block, then the deduplicated selected block, to their files, and appends the cleaned sample with details for locus 0 to the results |
| SamplerSampleN.SampleN.WriteBlocks | include/sampler_sample_n.hpp:96-109 | one open-write-close cycle appends all blocks, one per locus, to a non-empty path |
| SamplerSampleN.SampleN.SampleMultiLocus | include/sampler_sample_n.hpp:87-131 | appends every locus's neutral block, then every locus's deduplicated selected block, to the files, and appends one result per locus in locus order |
| SamplerSampleN.SampleN.PushLocusResults | include/sampler_sample_n.hpp:124-130 | appends the results of all loci in order and keeps every stored selected block free of adjacent duplicates |
| SamplerSampleN.SampleN.Final | include/sampler_sample_n.hpp:133-137 | returns all results accumulated so far; none of their selected blocks has adjacent duplicates |
| GslRng.Rng.Get | include/sampler_sample_n.hpp:146 | one raw draw, determined by the draws before it, and logged |
| GslRng.Rng.Uniform | fwdpy/qtrait/ew2010.cc:36 | one uniform draw, determined by the draws before it, and logged |
| GslRng.Rng.Gaussian | fwdpy/qtrait/ew2010.cc:39 | one Gaussian draw with the given standard deviation, determined by the draws before it, and logged |
| Ew2010.Magnitude | fwdpy/qtrait/ew2010.cc:37-38 | the pre-noise effect has the absolute value of pow(4N\|s\|, tau), and when that power is positive it is negative exactly when s < 0 |
| Ew2010.Record | fwdpy/qtrait/ew2010.cc:36-39 | a table entry stores s and 2n/4N; its effect is magnitude * (1 + noise), negated exactly when the uniform draw is below 0.5 |
| Ew2010.RandomSign | fwdpy/qtrait/ew2010.cc:36 | the sign is -1 or +1, and it is -1 exactly when the uniform draw is below 0.5 |
| Ew2010.MagnitudeSign | fwdpy/qtrait/ew2010.cc:37-38 | the magnitude is (4N\|s\|)^tau, negated exactly when s < 0 |
| Ew2010.RecordFields | fwdpy/qtrait/ew2010.cc:39 | a record stores s, the scaled frequency 2n/4N, and the effect d * magnitude * (1 + noise) |
| Ew2010.AssignFrom | fwdpy/qtrait/ew2010.cc:26-42 | the loop of ew2010_assign_effects as a left fold over the mutation table: the draw log is only extended, by at most two draws per mutation, and the only error is the duplicate-position error |
| Ew2010.AssignOutcome | fwdpy/qtrait/ew2010.cc:26-42 | the assignment fails exactly when two non-neutral mutations share a position. On success the table's keys are exactly the non-neutral positions, and two draws were made per non-neutral mutation, uniform then Gaussian |
| Ew2010.AssignFailureDraws | fwdpy/qtrait/ew2010.cc:28-39 | on failure, the failing mutation is the first non-neutral one whose position is already taken, and only the mutations before it were drawn for |
| Ew2010.AssignEntryAt | fwdpy/qtrait/ew2010.cc:36-39 | on success, every non-neutral mutation's entry is the record built from the two draws made for it, after those of the earlier non-neutral mutations |
| Ew2010.AssignRecordAt | fwdpy/qtrait/ew2010.cc:26-39 | on success, the entry at a non-neutral mutation's position holds its s, its frequency 2n/4N, and its effect from the uniform and Gaussian draws made for it |
| Ew2010.AssignFailurePersists | fwdpy/qtrait/ew2010.cc:32-35 | a duplicate found in a prefix of the mutation table ends the whole call with that error and that draw log |
| Ew2010.DrawEffect | fwdpy/qtrait/ew2010.cc:36-39 | makes exactly one uniform and one Gaussian draw and builds the record from them |
| Ew2010.AssignEffects | fwdpy/qtrait/ew2010.cc:21-43 | the imperative loop returns the table or error of the specification and leaves the generator's draw log the specification predicts |
| Ew2010.EffectSum | fwdpy/qtrait/ew2010.cc:50-65 | the sum of the table effects at a gamete's selected positions, in gamete order; the reference sum the accumulate fold and the trait values are proved equal to |
| Ew2010.EffectSumAppend | fwdpy/qtrait/ew2010.cc:58-65 | the effect sum over the two gametes' positions taken together is the sum of the two gametes' sums |
| Ew2010.Accumulate | fwdpy/qtrait/ew2010.cc:50-57 | the fold succeeds exactly when every position has an effect; it then returns the initial value plus the sum of the effects, and otherwise the unknown-position error |
| Ew2010.TraitValues | fwdpy/qtrait/ew2010.cc:46-68 | fails exactly when some diploid carries a position with no record. Otherwise it returns one value per diploid, in order, equal to the sum of the effects on both gametes |

## Left out

- Encoding of samples and files: a sample block is written as Sequence::SimData text and
  then gzip-compressed. The model records the written blocks per path instead.
- Drawing a sample and computing its details: `KTfwd::sample_separate` and `get_sh_details`
  are library code, not part of this model. The drawn sample and a function for the details
  are parameters of each sampling call. The sampler's own generator, seeded from the upstream
  draw, is consumed only inside `sample_separate`, so the model does not model it beyond
  storing its seed.
- The population objects (`singlepop_t`, `multilocus_t`) are not modelled beyond what the
  modelled code reads from them.
- SamplerSampleN.FileSystem.OpenAppend: opening a file in "ab" mode is assumed to succeed.
  The source does not check the result of that `gzopen`, and writing through a null handle
  is outside the model.
- SamplerSampleN.SampleN.Final: the source returns the shared pointer to the result vector,
  so the caller sees later appends. The model returns a snapshot of the values, and aliasing
  is not modelled.
- Floating point: frequencies, effects and positions are real numbers. Rounding, NaN and
  infinities are not modelled. Because real addition is associative, the order of
  `std::accumulate` does not matter in the model.
- `pow`, `gsl_rng_uniform`, `gsl_ran_gaussian_ziggurat` and `gsl_rng_get`: the power function
  is a parameter, and each draw is an opaque function of the earlier draws. The generators'
  algorithms and distributions are not modelled.
- Ew2010.AssignEffects: requires at least one diploid. With no diploids the source divides by
  4N = 0 in floating point, which yields infinities or NaN, and that is not modelled.
- AlleleAges.PassesMinFreqTest: requires a non-empty history when minfreq > 0. The source
  would dereference the end iterator of an empty vector, which is undefined behaviour. Its
  only caller, `tidy_trajectory_info`, tests for emptiness first.
- Mutation identity: the merge (FindKey, Insert, Merge and the lemmas about them) is generic
  in the key type and uses only key equality, as the source compares `selected_mut_data`
  records with `==`. Summaries and tidy rows use the concrete `MutationKey` and read its
  origin, effect size, position and label. The effect table is keyed by position alone, as in
  the source.
- Two behaviours worth noting:
  - `tidy_trajectory_info` skips an empty trajectory silently (AlleleAges.TidySkipsEmpty),
    while `allele_ages_details` rejects it.
  - `allele_ages_details` checks minfreq once, before the loop, so a negative minfreq is
    reported even for an empty set.
- Integer widths: generations, counts and sojourn lengths are unbounded naturals. The source's
  `unsigned` values never come near wrap-around in these loops.
