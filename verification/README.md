# cs467 kernels in Dafny

This project models the algorithm kernels of the cs467 repository and proves what they promise:

- **The generational genetic algorithm** (`genetic/src/genetic.rs`, with its knapsack problem in `genetic/src/problems.rs`). It covers:
  - the derived `Fitness` order;
  - in-place crossover of two genotype buffers;
  - the Equal, Remainder and Replacement mating pools;
  - the crowding test;
  - the generation step, which saves and restores `mutation_rate`;
  - knapsack fitness, forced and unforced mutation, and the CSV parser.
- **The earlier string-based genetic algorithm** (`genetic-algorithms/src/genetic/src/lib.rs`). `genetic-algorithms/src/main.rs` is a line-for-line copy of it, and `genetic-algorithms/src/problems/knapsack.rs` holds its knapsack scoring. Covered: `mutate`, `reproduce`, `generate_genitors` and `generate_population`, including the literal `last += i` and `f =- 1.0`.
- **The knapsack thief** (`knapsack/src/main.rs`):
  - `Knapsack::add`;
  - the greedy fill;
  - the bitmask exhaustive search;
  - the branch-and-bound `recur`;
  - the CSV parser.

  It is modelled together with the item names and file layout written by `knapsack/generateSets.py`. Both parsers are proved to read that file back.
- **Tic-tac-toe**:
  - the Rust board: construction, `evaluate`, `moves`, `format` and the board update of `play`;
  - the learner's probability table `build_tree`;
  - the Python `TicTacToe`: validation, moves, status, and the 24-bit `encode`/`decode` pair.
- **Three 6×6 reversi kernels**:
  - the string rules of `test_reversi.py`: `flips`, `validMove`, `applyFlip`, `applyMove`, the move count and the score;
  - the 8-bit direction mask of `main.py`;
  - the two-bitset board of `test.py`.

## How the model is built

- **Randomness** is an input. `Draws.Source` carries two arbitrary streams, uniform samples in [0, 1) and natural numbers, each with a cursor. Every `rand` call the programs make is derived from those streams the way `rand` derives it: `gen_bool`, `gen_range`, reservoir `choose_multiple`, and `WeightedIndex` sampling. Any outcome the library can produce is therefore produced by some source. No probabilities are stated.
- **Panics** (`panic!`, `unwrap` on `None`/`Err`, out-of-range indexing, Python exceptions) are the `Err` side of a `Result`. The `Ok` side is the normal return.
- **Mutable objects are classes**:
  - `Generation` (its `population`, `intermediate` and `mutation_rate` fields);
  - the thief's `Knapsack`;
  - the learner's probability `Tree`;
  - the tic-tac-toe `Table` of a running `play`;
  - the reversi `Game` holding the global `gameboard`.

  Genotype buffers that are crossed and mutated in place are arrays. Every loop of the sources is a method with invariants. Most methods are proved equal to a specification function, and the properties are proved about that function. The exceptions are two mating-pool methods of `Generation`, `FillEqual` and `FillReplacement`. Their contracts state the size and contents of the pool they build, not a function of the draws. `FillRemainder` is proved equal to `RemainderFill`. `GenerateGeneration` is tied to the refill function `BreedSpec` for some source left after selection.
- **Floating-point numbers** are `real`. Where a division by zero matters (`average_fitness`, `fitness` in `genetic-algorithms/src/problems/knapsack.rs`), the result is the datatype `F64` (finite, infinity, NaN).
- **Integers:**
  - `usize` masks are sequences of bits, lowest bit first, of the width of the item list;
  - `2_usize.pow(n)` overflows at `n >= 64` and panics, which is modelled;
  - the Python binary strings in `game.py` and `main.py` are sequences of bits, most significant first.
- **File readers** are sequences of lines, `None` for a line that cannot be read.

**Where the code and its description disagree, the model follows the code:**
- In `genetic.rs` a child keeps its parent's fitness after crossover and mutation. Nothing recomputes it. Sorting and the next selection use the stale value.
- The crossover loop of `Genotype::reproduce` never swaps the tail after the last point. Two-point crossover at `p < q` is therefore one-point crossover at `p` (`Genetic.TwoPointIsOnePoint`).
- In `genetic-algorithms`, `reproduce` cycles the parents so that each child only takes slices of its own parent. With `last += i` and no tail, children are never crossed and are shorter than their parents.
- `f =- 1.0` assigns −1, so Remainder selection gives each genotype at most one copy.
- `test_reversi.py` refuses a capture that ends on the board's left edge; `main.py` accepts it (`ReversiText.EdgeCaptureDisagrees`).
- `main.py` rays are not guarded against wrapping across rows.
- `test.py` tests `bitarray(8)` flags and returns the successor with the old occupancy mask. A move there only writes the mover's bit at `x`, and the flagged rays never change anything (`ReversiBits.MoveChangesOnlyX`).

## Model

| member | source | states |
|---|---|---|
| `GeneticTypes.Compare` | genetic/src/genetic.rs:34-38 | the derived order: equal exactly for equal fitnesses, every `Valid` below `Invalid` |
| `GeneticTypes.CompareIsTotalOrder` | genetic/src/genetic.rs:34-38 | the derived comparison is antisymmetric, total and transitive |
| `GeneticTypes.ValidOrderedByScore` | genetic/src/genetic.rs:34-38 | two `Valid` fitnesses compare as their scores do |
| `GeneticTypes.FitnessComparisons` | genetic/src/genetic.rs:608-619 | the comparisons asserted by `test_fitness_cmp` hold |
| `GeneticTypes.Unwrap` | genetic/src/genetic.rs:159-166 | succeeds exactly on `Valid` and returns its score, otherwise the panic |
| `GeneticTypes.FitterFirstIsPreorder` | genetic/src/genetic.rs:306 | the descending comparison used by the sorts is a total preorder |
| `GeneticTypes.SortFittestFirst` | genetic/src/genetic.rs:285 | the population sorted fittest first is a permutation with the same members, in non-increasing order |
| `GeneticTypes.InvalidSortedFirst` | genetic/src/genetic.rs:436 | after the descending sort, every `Invalid` genotype precedes every `Valid` one |
| `Genetic.Cross` | genetic/src/genetic.rs:229-239 | at every position the two children hold the parents' two genes, exchanged exactly where an even number of points precedes |
| `Genetic.CountAtMost` | genetic/src/genetic.rs:229-239 | the number of crossover points up to a position is at most the number of points |
| `Genetic.SegmentsAlternate` | genetic/src/genetic.rs:229-239 | the segment that ends at point k is exchanged exactly when k is even |
| `Genetic.TailKept` | genetic/src/genetic.rs:229-239 | positions after the last crossover point are never exchanged |
| `Genetic.TwoPointIsOnePoint` | genetic/src/genetic.rs:229-239 | crossing at points p < q gives the same children as crossing at p alone |
| `Genetic.Crossover` | genetic/src/genetic.rs:229-239 | the in-place slice swaps leave the two buffers equal to `Cross` of their old contents |
| `Genetic.ChoosePoints` | genetic/src/genetic.rs:216-223 | distinct points in [1, length): one for One and two for Two (fewer when there are fewer gaps), between 3 and length − 1 for Uniform; only Uniform on length ≤ 3 panics |
| `Genetic.Points` | genetic/src/genetic.rs:225 | the chosen points, sorted strictly increasing, the same number and range |
| `Genetic.ReproduceSpec` | genetic/src/genetic.rs:203-249 | panics (`Mismatch`) exactly on a length mismatch between the two genotypes and the problem; the other panic, the empty `gen_range(3..length)` (`NoPoints`), happens only for Uniform with length ≤ 3; lengths are kept, and genes change only when the pair was crossed |
| `Genetic.SkipKeepsParents` | genetic/src/genetic.rs:211-214 | when the skip coin fires, both genotypes come back untouched |
| `Genetic.CrossedWithoutMutation` | genetic/src/genetic.rs:216-246 | with mutation rate 0, the children are exactly `Cross` of the parents at increasing points inside [1, length) |
| `Genetic.Reproduce` | genetic/src/genetic.rs:203-249 | the in-place method leaves the buffers and the draws as `ReproduceSpec` says |
| `Genetic.Weight` | genetic/src/genetic.rs:405-416 | a Replacement weight is at least 0.01, and it is the score itself when that is at least 0.01 |
| `Genetic.Weights` | genetic/src/genetic.rs:405-416 | one non-negative weight per genotype, with a positive total for a non-empty population |
| `Genetic.Matches` | genetic/src/genetic.rs:449-467 | the count of equal positions is at most either length |
| `Genetic.Crowded` | genetic/src/genetic.rs:449-467 | the crowding test panics exactly when the pool has fewer than two genotypes |
| `Genetic.Mate` | genetic/src/genetic.rs:491-497 | one refill round: when `reproduce` does not panic, both children have the problem's length and a fitness recorded in the pool; on a well-formed pool it panics only on Uniform with length ≤ 3 |
| `Genetic.Push` | genetic/src/genetic.rs:499-503 | the first child is always pushed, the second exactly when there is room after it; the population never passes the capacity |
| `Genetic.BreedSpec` | genetic/src/genetic.rs:488-504 | the refill keeps what was there, fills to capacity when it finishes, and stops below capacity when `reproduce` panics |
| `Genetic.BreedKeeps` | genetic/src/genetic.rs:488-504 | the refill panics only on Uniform with length ≤ 3, and every genotype it adds has the problem's length and a fitness from the pool |
| `Genetic.BreedSkipCopies` | genetic/src/genetic.rs:211-214 | with `skip` 1 the refill always finishes and adds only copies of pool members |
| `Genetic.MateSkipped` | genetic/src/genetic.rs:211-214 | with `skip` 1 a round succeeds and returns two pool members unchanged |
| `Genetic.Descended` | genetic/src/genetic.rs:488-504 | a population of such children is well formed, with fitnesses from the pool |
| `Genetic.PairMatchesIdentical` | genetic/src/genetic.rs:449-467 | pairs of identical genotypes match at every position |
| `Genetic.MatchesSelf` | genetic/src/genetic.rs:449-467 | a genotype matches itself at every position |
| `Genetic.IdenticalPoolIsCrowded` | genetic/src/genetic.rs:449-467 | a pool of copies of one non-empty genotype is reported crowded |
| `Genetic.MatchesNone` | genetic/src/genetic.rs:449-467 | genotypes that differ everywhere match nowhere |
| `Genetic.PairMatchesNone` | genetic/src/genetic.rs:449-467 | pairs that differ everywhere contribute no matches |
| `Genetic.DisjointPoolNotCrowded` | genetic/src/genetic.rs:449-467 | a pool whose pairs differ at every position is not crowded |
| `Genetic.LastFittest` | genetic/src/genetic.rs:290-301 | the index `max_by` returns: a maximum, and the last of the maxima |
| `Genetic.RemainderAverage` | genetic/src/genetic.rs:331-342 | the divisor of the Remainder ratios is always positive, 1e-13 standing in for a sum that is not positive |
| `Genetic.Copies` | genetic/src/genetic.rs:353-374 | a genotype with ratio f gets floor(f) copies, or floor(f) + 1 when the last coin fires, as far as the pool has room; none for f ≤ 0; the pool never passes its capacity |
| `Genetic.Pass` | genetic/src/genetic.rs:350-378 | a pass keeps the pool and adds only `Valid` members, without passing the capacity |
| `Genetic.RemainderRound` | genetic/src/genetic.rs:348-383 | one turn of the outer loop always grows the pool, with members only; an `Invalid` genotype enters only as the single fallback copy after a pass that pushed nothing |
| `Genetic.RemainderFill` | genetic/src/genetic.rs:347-390 | the outer loop ends with the pool exactly full of members, keeping what it held |
| `Genetic.SumBelow` | genetic/src/genetic.rs:331-342 | when no `Valid` score reaches `avg`, the scores sum to less than `avg` per genotype |
| `Genetic.AboveAverage` | genetic/src/genetic.rs:338-353 | with a positive sum of scores some `Valid` genotype has ratio at least 1 |
| `Genetic.PassPushes` | genetic/src/genetic.rs:350-378 | a pass into a pool with room pushes something once it meets a ratio of at least 1 |
| `Genetic.RoundOfPass` | genetic/src/genetic.rs:380-383 | the fallback draw happens exactly when the pass pushed nothing |
| `Genetic.FillStep` | genetic/src/genetic.rs:347-390 | the outer loop is a round, then the rest of the loop unless the pool is full |
| `Genetic.RemainderValidOnly` | genetic/src/genetic.rs:330-391 | with a positive sum of scores every pass pushes, so the fallback never runs and no `Invalid` genotype enters the pool |
| `Genetic.Generation.constructor` | genetic/src/genetic.rs:254-273 | a generation with the given settings and empty population and pool |
| `Genetic.Generation.Best` | genetic/src/genetic.rs:290-301 | none exactly for an empty population; otherwise a member that no member beats |
| `Genetic.Generation.DetectedCrowding` | genetic/src/genetic.rs:449-467 | the crowding test on the pool panics exactly when the pool has fewer than two genotypes |
| `Genetic.Generation.GenerateGenitors` | genetic/src/genetic.rs:442-447 | the population keeps its members and is topped up with fresh genotypes to the capacity |
| `Genetic.Generation.FillEqual` | genetic/src/genetic.rs:314-329 | Equal selection pushes min(capacity, 2P + 1) copies of members |
| `Genetic.Generation.FillRemainder` | genetic/src/genetic.rs:330-391 | the loops compute `RemainderFill` with the average of the scores: exactly `intermediate_capacity` copies of members, and only `Valid` ones when the scores add up to a positive sum |
| `Genetic.Generation.RemainderPass` | genetic/src/genetic.rs:348-378 | one pass over the population computes `Pass` and counts what it pushed |
| `Genetic.Generation.Copy` | genetic/src/genetic.rs:353-374 | the `while f > 0.0` loop computes `Copies` and counts what it pushed |
| `Genetic.Generation.FillReplacement` | genetic/src/genetic.rs:392-428 | Replacement selection pushes exactly 2P weighted draws of members |
| `Genetic.Generation.SelectGenitors` | genetic/src/genetic.rs:303-440 | sorts the population; panics exactly on an empty one; otherwise the pool has the strategy's size, holds members only, and is sorted fittest first; under Remainder it is `RemainderFill` sorted, holding only `Valid` genotypes when the scores add up to a positive sum |
| `Genetic.Generation.Round` | genetic/src/genetic.rs:491-497 | drawing two pool members, cloning them into fresh buffers and crossing them in place computes `Mate` |
| `Genetic.Generation.Breed` | genetic/src/genetic.rs:488-504 | the refill loop computes `BreedSpec` from an empty population with the current settings: whether it panicked, the population and the draws left |
| `Genetic.Generation.Regenerate` | genetic/src/genetic.rs:481-515 | after selection: crowding detection on a pool of fewer than two panics first; otherwise breeding uses rate 0.2 when detection is on and the pool is crowded and the old rate otherwise, the result is `BreedSpec` with that rate sorted fittest first, and the old rate is restored only on success; the population is then full, well formed, sorted, with fitnesses from the pool |
| `Genetic.Generation.GenerateGeneration` | genetic/src/genetic.rs:469-533 | panics exactly on malformed, empty, too-small-pool or impossible-Uniform inputs; otherwise the new population is the sorted `BreedSpec` refill from the selected pool, with the crowding rate, for some draws; it is full, well formed and sorted, bred from members of the old one; `mutation_rate` is restored |
| `KnapsackProblem.Alphabet` | genetic/src/problems.rs:97-99 | the alphabet is exactly the two symbols `'0'` and `'1'` |
| `KnapsackProblem.Len` | genetic/src/problems.rs:101-103 | the genotype length is the number of items |
| `KnapsackProblem.TotalsTruncate` | genetic/src/problems.rs:47-54 | the zip stops at the shorter of items and genes |
| `KnapsackProblem.TotalsSelect` | genetic/src/problems.rs:47-54 | switching gene i on adds exactly item i's weight and value |
| `KnapsackProblem.TotalsEmptySelection` | genetic/src/problems.rs:47-54 | with no gene switched on, both totals are 0 |
| `KnapsackProblem.FitnessOf` | genetic/src/problems.rs:56-66 | `Invalid` exactly when the weight exceeds the limit; otherwise a score in [0, 1); the non-finite assertion panics exactly when the limit and the weight are both 0 |
| `KnapsackProblem.SquashMonotone` | genetic/src/problems.rs:59-65 | a larger value gives a strictly larger valid score |
| `KnapsackProblem.MutateGene` | genetic/src/problems.rs:111-124 | one gene spends one coin; it is kept when the coin does not fire, and otherwise becomes a symbol of the alphabet, a different one when forced |
| `KnapsackProblem.MutatePrefix` | genetic/src/problems.rs:110-127 | the length and the draws are accounted for; a gene changes only where its coin fired, always into the alphabet, and, when forced, into a different symbol |
| `KnapsackProblem.MutateRateZero` | genetic/src/problems.rs:110-127 | rate 0 leaves the genotype unchanged |
| `KnapsackProblem.Mutate` | genetic/src/problems.rs:105-128 | the in-place loop leaves the buffer as `MutatePrefix` says |
| `KnapsackProblem.ParseSpec` | genetic/src/problems.rs:141-209 | a successful parse always has a positive weight limit |
| `KnapsackProblem.ParseLine` | genetic/src/problems.rs:164-196 | with spaces removed and split on commas: more than two fields add the item (field 1, field 2) exactly when both parse and never touch the limit; two fields set the limit from field 1 or panic when it does not parse; a line without a comma changes nothing |
| `KnapsackProblem.ParseFile` | genetic/src/problems.rs:160-205 | the line loop, with the line rules inline, computes the parse specification, including the panics and the unreadable-line `None` |
| `KnapsackProblem.ParseAbsorbs` | genetic/src/problems.rs:160-201 | once the parse has failed, further lines do not change the outcome |
| `KnapsackProblem.New` | genetic/src/problems.rs:130-138 | a constructed problem has one gene per parsed item |
| `StringGenetic.CountDistinct` | genetic-algorithms/src/genetic/src/lib.rs:105-111 | a distinct alphabet holds each symbol at most once |
| `StringGenetic.OthersMembers` | genetic-algorithms/src/genetic/src/lib.rs:106-110 | the filtered alphabet holds exactly the symbols other than the current gene |
| `StringGenetic.MutateGene` | genetic-algorithms/src/genetic/src/lib.rs:101-117 | without a fired coin the gene is kept; with one it becomes an alphabet symbol, a different one when forced; it panics only when the alphabet is too small |
| `StringGenetic.MutatePrefix` | genetic-algorithms/src/genetic/src/lib.rs:100-119 | the child keeps its length and changes only where coins fired, into the alphabet, into a different symbol when forced |
| `StringGenetic.MutateAbsorbs` | genetic-algorithms/src/genetic/src/lib.rs:100-119 | once a position has panicked, later positions do not change the outcome |
| `StringGenetic.MutateSpec` | genetic-algorithms/src/genetic/src/lib.rs:94-148 | both children keep their lengths |
| `StringGenetic.MutateRateZero` | genetic-algorithms/src/main.rs:18-60 | rate 0 returns the pair unchanged |
| `StringGenetic.MutateAllForced` | genetic-algorithms/src/genetic/src/lib.rs:105-111 | rate 1 with forcing and a distinct alphabet holding every gene changes every position |
| `StringGenetic.MutateAt` | genetic-algorithms/src/genetic/src/lib.rs:101-117 | one pass of the loop keeps the string's length, changes at most gene `i`, and does what `MutateGene` says, panics included |
| `StringGenetic.MutateString` | genetic-algorithms/src/genetic/src/lib.rs:100-119 | the per-child loop computes `MutatePrefix` |
| `StringGenetic.Mutate` | genetic-algorithms/src/genetic/src/lib.rs:94-148 | the two loops compute `MutateSpec` |
| `StringGenetic.Splice` | genetic-algorithms/src/genetic/src/lib.rs:183-198 | the children are equally long, no longer than the last point, and drawn only from their own parent's prefix; a point below the accumulated `last` panics |
| `StringGenetic.SpliceOnePoint` | genetic-algorithms/src/genetic/src/lib.rs:185-198 | one point p gives each child its own parent's first p symbols |
| `StringGenetic.SpliceTwoPoints` | genetic-algorithms/src/genetic/src/lib.rs:185-198 | points p, q succeed exactly when p ≤ q and give the prefixes of length q, with `last` at p + q |
| `StringGenetic.SpliceAbsorbs` | genetic-algorithms/src/genetic/src/lib.rs:185-198 | once a slice has panicked, later points do not change the outcome |
| `StringGenetic.SpliceLoop` | genetic-algorithms/src/genetic/src/lib.rs:178-198 | the cycling loop computes `Splice` |
| `StringGenetic.DrawPoints` | genetic-algorithms/src/genetic/src/lib.rs:166-173 | distinct points below the length: one for One, two for Two, fewer than the length for Uniform; Uniform on an empty parent panics |
| `StringGenetic.Crossover` | genetic-algorithms/src/genetic/src/lib.rs:165-195 | the crossover of `reproduce`: two equally long children, shorter than a non-empty first parent, each holding only genes of its own parent |
| `StringGenetic.SkipReturnsParents` | genetic-algorithms/src/main.rs:78-81 | a fired skip coin returns the parents |
| `StringGenetic.ChildrenShorter` | genetic-algorithms/src/genetic/src/lib.rs:178-198 | children are equally long and strictly shorter than a non-empty parent; without mutation they hold only their own parent's symbols |
| `StringGenetic.OnePointPrefixes` | genetic-algorithms/src/main.rs:96-120 | One-point reproduction without mutation gives each child a proper prefix of its own parent |
| `StringGenetic.ReproduceSpec` | genetic-algorithms/src/genetic/src/lib.rs:150-206 | only a crossing can panic, never a fired skip coin; crossed children are equally long and shorter than the first parent unless it is empty; without mutation each holds genes of its own parent only |
| `StringGenetic.Reproduce` | genetic-algorithms/src/genetic/src/lib.rs:150-206 | the method computes `ReproduceSpec`: the skip coin, the points, the splices, and mutation only when the rate is positive |
| `StringGenetic.GenerateGenitors` | genetic-algorithms/src/genetic/src/lib.rs:208-224 | exactly `population` strings of `length` alphabet symbols; an empty alphabet panics exactly when a symbol is needed |
| `StringGenetic.PositiveNames` | genetic-algorithms/src/genetic/src/lib.rs:295-301 | exactly the genotypes with positive fitness |
| `StringGenetic.Weights` | genetic-algorithms/src/genetic/src/lib.rs:295-301 | one non-negative weight per genotype, positive exactly for positive fitness |
| `StringGenetic.TotalPositive` | genetic-algorithms/src/genetic/src/lib.rs:295-301 | non-negative weights have a positive total exactly when one of them is positive |
| `StringGenetic.PositiveTotal` | genetic-algorithms/src/genetic/src/lib.rs:295-301 | `WeightedIndex::new` fails exactly when no genotype has positive fitness |
| `StringGenetic.Ratio` | genetic-algorithms/src/genetic/src/lib.rs:268 | the ratio to the average is positive exactly when both the fitness and the average are positive |
| `StringGenetic.RemainderPool` | genetic-algorithms/src/genetic/src/lib.rs:267-284 | the pool stays within `population` and is a subsequence of the genotypes of positive fitness |
| `StringGenetic.RemainderTakesAboveOne` | genetic-algorithms/src/genetic/src/lib.rs:270-274 | unless the pool filled up, it holds every genotype whose fitness is above the average |
| `StringGenetic.RemainderAtMostOnce` | genetic-algorithms/src/main.rs:185-202 | because `f =- 1.0` assigns −1, each genotype enters the Remainder pool at most once |
| `StringGenetic.FillRemainder` | genetic-algorithms/src/genetic/src/lib.rs:261-287 | the loops compute `RemainderPool` |
| `StringGenetic.FillReplacement` | genetic-algorithms/src/genetic/src/lib.rs:288-308 | panics exactly when no fitness is positive; otherwise exactly `population` positive genotypes |
| `StringGenetic.ByFitnessIsPreorder` | genetic-algorithms/src/genetic/src/lib.rs:251 | the ascending fitness comparison is a total preorder |
| `StringGenetic.Scores` | genetic-algorithms/src/genetic/src/lib.rs:247-249 | each genotype paired with its own fitness, in order |
| `StringGenetic.Ranked` | genetic-algorithms/src/genetic/src/lib.rs:247-251 | the scored genotypes rearranged, duplicates included (same multiset), sorted ascending by fitness |
| `StringGenetic.RankedStable` | genetic-algorithms/src/genetic/src/lib.rs:247-251 | genotypes of equal fitness keep their relative order |
| `StringGenetic.Average` | genetic-algorithms/src/genetic/src/lib.rs:262-264 | the average of the positive fitnesses is non-negative, and positive exactly when some fitness is |
| `StringGenetic.PositivePool` | genetic-algorithms/src/genetic/src/lib.rs:261-308 | every genotype of a Remainder or Replacement pool has positive fitness |
| `StringGenetic.SelectPool` | genetic-algorithms/src/genetic/src/lib.rs:257-309 | Equal returns all genotypes in order; Remainder gives at most `population` positive genotypes; Replacement gives exactly `population` or panics when none is positive |
| `StringGenetic.TopUp` | genetic-algorithms/src/genetic/src/lib.rs:235-246 | keeps the supplied genitors as a prefix and tops them up with fresh genotypes to `population` |
| `StringGenetic.GeneratePopulation` | genetic-algorithms/src/genetic/src/lib.rs:226-313 | genotypes are supplied or fresh; Equal keeps all, sorted ascending; Remainder and Replacement keep only positive fitness, within or exactly at `population` |
| `KnapsackScore.Quotient` | genetic-algorithms/src/problems/knapsack.rs:18 | f64 division of two integers, including infinity and NaN for a zero divisor |
| `KnapsackScore.DivideBy` | genetic-algorithms/src/problems/knapsack.rs:18 | division of a finite quotient by a positive count; NaN stays NaN |
| `KnapsackScore.Fitness` | genetic-algorithms/src/problems/knapsack.rs:21-37 | the weight and value are the totals of the selected items; −1 exactly when over the limit; otherwise value / limit for a positive limit, and for a zero limit NaN exactly when the value is 0 and infinity exactly when it is positive |
| `KnapsackScore.AllSelected` | genetic-algorithms/src/problems/knapsack.rs:7-16 | the all-ones selection |
| `KnapsackScore.AverageFitness` | genetic-algorithms/src/problems/knapsack.rs:7-19 | −1 when all items together exceed the limit, otherwise (value / limit) / item count |
| `KnapsackScore.SumsAreFullSelection` | genetic-algorithms/src/problems/knapsack.rs:7-16 | the sum over all items is the total of the all-ones genotype |
| `KnapsackScore.AverageOfFullSelection` | genetic-algorithms/src/problems/knapsack.rs:7-37 | `average_fitness` is the fitness of the all-ones genotype divided by the item count |
| `KnapsackScore.FitnessIgnoresExtra` | genetic-algorithms/src/problems/knapsack.rs:22-30 | genes past the last item are ignored |
| `KnapsackScore.FitnessSelectOne` | genetic-algorithms/src/problems/knapsack.rs:22-30 | selecting one more item adds exactly its weight and value |
| `KnapsackSolver.Knapsack.constructor` | knapsack/src/main.rs:8-12 | a knapsack with the given count, capacity and items |
| `KnapsackSolver.Knapsack.Add` | knapsack/src/main.rs:22-25 | appends the item, keeps the capacity, and sets the count to the number of items |
| `KnapsackSolver.Chosen` | knapsack/src/main.rs:164-177 | the items whose bits are set, in order |
| `KnapsackSolver.ChosenSums` | knapsack/src/main.rs:164-177 | the chosen items weigh and are worth the masked sums, and there are as many as set bits |
| `KnapsackSolver.WeightMonotone` | knapsack/src/main.rs:224-233 | setting more bits never lowers the weight |
| `KnapsackSolver.GreedyPrefix` | knapsack/src/main.rs:110-125 | the taken weight is the masked sum and fits; every skipped item was too heavy for what was left |
| `KnapsackSolver.GreedyTakesAllThatFits` | knapsack/src/main.rs:110-125 | when all items fit together, greedy takes them all |
| `KnapsackSolver.Greedy` | knapsack/src/main.rs:110-125 | the stolen knapsack holds exactly the greedily chosen items, in order, with their total weight |
| `KnapsackSolver.BitsOfFromBits` | knapsack/src/main.rs:132-143 | a mask is the bit pattern of its own number, which lies below 2^n |
| `KnapsackSolver.FromBitsOfBits` | knapsack/src/main.rs:132-143 | the number of a bit pattern of i < 2^n is i |
| `KnapsackSolver.FewerBitsSmaller` | knapsack/src/main.rs:143-156 | clearing the lowest set bit gives a smaller number |
| `KnapsackSolver.FromBitsMonotone` | knapsack/src/main.rs:143-156 | clearing bits never increases the number |
| `KnapsackSolver.TrailingZeros` | knapsack/src/main.rs:145 | the position of the lowest set bit |
| `KnapsackSolver.Pack` | knapsack/src/main.rs:143-156 | packing a mask lowest bit first never exceeds the capacity, and it is the full masked sum when that fits |
| `KnapsackSolver.Packed` | knapsack/src/main.rs:143-156 | the items actually packed are a subset of the mask |
| `KnapsackSolver.PackedPacksAlike` | knapsack/src/main.rs:143-156 | the packed subset fits and packs to the same totals |
| `KnapsackSolver.Scan` | knapsack/src/main.rs:138-162 | the kept mask is the first with the largest packed value among all masks scanned |
| `KnapsackSolver.ExhaustiveOptimal` | knapsack/src/main.rs:132-162 | every subset that fits is worth at most the maximum found |
| `KnapsackSolver.ExhaustiveWinnerFits` | knapsack/src/main.rs:164-177 | the winning mask itself fits, with the recorded weight and value |
| `KnapsackSolver.PackMask` | knapsack/src/main.rs:143-156 | the inner loop computes `Pack` |
| `KnapsackSolver.AddSetBits` | knapsack/src/main.rs:170-175 | `add` is called once per set bit of the mask, in order |
| `KnapsackSolver.Exhaustive` | knapsack/src/main.rs:127-178 | panics exactly at 64 or more items; otherwise returns the items of the winning mask with its weight |
| `KnapsackSolver.ExhaustiveIsOptimal` | knapsack/src/main.rs:127-178 | the returned items fit and are worth at least every fitting subset |
| `KnapsackSolver.MaskTotals` | knapsack/src/main.rs:211-222 | the total weight and value of the set bits |
| `KnapsackSolver.Recur` | knapsack/src/main.rs:206-240 | the best never gets worse and stays consistent, and it is at least as good as every fitting extension of the configuration |
| `KnapsackSolver.BranchesDisjoint` | knapsack/src/main.rs:231-233 | branches setting different bits above i reach disjoint subsets |
| `KnapsackSolver.ExhaustivePruning` | knapsack/src/main.rs:180-199 | panics exactly at 64 or more items; otherwise returns a fitting subset of the items that is worth at least every fitting subset |
| `KnapsackSolver.StripSpace` | knapsack/src/main.rs:85-89 | removes exactly one leading space |
| `KnapsackSolver.ParseLine` | knapsack/src/main.rs:79-104 | split on commas: more than two fields append `Item(field 0, value from field 2, weight from field 1)` exactly when both numbers parse after one optional leading space, and otherwise panic on the value first, then the weight; fewer fields set the item count from field 0 and the capacity from field 1 without its first character, keeping the items, and panic when either does not parse; a line without a comma panics |
| `KnapsackSolver.ParseAbsorbs` | knapsack/src/main.rs:62-108 | once the parse has failed, further lines do not change the outcome |
| `KnapsackSolver.ParsePrefix` | knapsack/src/main.rs:62-108 | the lines read so far, stopping at the first panic; there are never more items than lines |
| `KnapsackSolver.ReadLine` | knapsack/src/main.rs:79-104 | one pass of the loop stores exactly what `ParseLine` gives, or returns its panic message |
| `KnapsackSolver.ParseFile` | knapsack/src/main.rs:62-108 | the line loop computes the parse specification |
| `DataSets.Alphabet` | knapsack/generateSets.py:8 | the 26 capital letters in order |
| `DataSets.Id` | knapsack/generateSets.py:10-14 | one letter below 26, two letters from 26 to 701, and `IndexError` from 702 on |
| `DataSets.IndexOfId` | knapsack/generateSets.py:10-14 | the name of item i reads back as i |
| `DataSets.IdInjective` | knapsack/generateSets.py:10-14 | different items get different names |
| `DataSets.IdExamples` | knapsack/generateSets.py:11-14 | 0 is "A", 25 is "Z", 26 is "AA", 52 is "BA", 701 is "ZZ", and 702 fails |
| `DataSets.Ids` | knapsack/generateSets.py:7-15 | exactly n names, the names of items 0 .. n − 1; fails exactly above 702 |
| `DataSets.GetIds` | knapsack/generateSets.py:7-15 | the loop computes `Ids` |
| `DataSets.Pool` | knapsack/generateSets.py:46-55 | values within the bounds: the whole range for a distinct pool, n draws otherwise; an empty range fails |
| `DataSets.Str` | knapsack/generateSets.py:60 | Python's `str` of a non-negative integer is its decimal digits |
| `DataSets.Lines` | knapsack/generateSets.py:40-60 | one header line and one line per item |
| `DataSets.LineAt` | knapsack/generateSets.py:40-60 | the header comes first, then item i's "id,weight,value" line |
| `DataSets.Generate` | knapsack/generateSets.py:40-62 | the concatenation loop computes the generated text |
| `DataSets.Listing` | knapsack/generateSets.py:59-62 | the output is the lines joined by newlines |
| `DataSets.HeaderFields` | knapsack/generateSets.py:40 | the header splits into the count and the spaced limit |
| `DataSets.ItemFields` | knapsack/generateSets.py:59-60 | an item line splits into its id, weight and value |
| `DataSets.ItemPlain` | knapsack/generateSets.py:59-60 | an item line holds no space and no line break, so removing spaces leaves it as it is |
| `DataSets.SolverHeaderLine` | knapsack/src/main.rs:95-104 | the thief's parser reads the header as count and capacity |
| `DataSets.SolverItemLine` | knapsack/src/main.rs:81-94 | the thief's parser reads an item line as that item |
| `DataSets.GeneticHeaderLine` | genetic/src/problems.rs:185-196 | the genetic parser reads the header as the weight limit |
| `DataSets.GeneticItemLine` | genetic/src/problems.rs:172-184 | the genetic parser reads an item line as its weight and value |
| `DataSets.ReadBackLines` | knapsack/generateSets.py:62 | reading the printed text line by line gives back the generated lines |
| `DataSets.SolverReadsDataSet` | knapsack/src/main.rs:62-108 | the thief's parser reads a generated file back as its count, capacity and items |
| `DataSets.GeneticReadsDataSet` | genetic/src/problems.rs:141-209 | the genetic parser reads a generated file back as its limit and items, and fails on a zero limit |
| `DataSets.GeneratedReadsBack` | knapsack/generateSets.py:43-62 | a generated data set has in-range weights and values and is read back exactly by the thief's parser |
| `TicTacToe.New` | learning/src/tictactoe.rs:16-21 | nine blank cells with X to move |
| `TicTacToe.From` | learning/src/tictactoe.rs:23-32 | keeps the board, and the mover is X or O |
| `TicTacToe.NewIsFrom` | learning/src/tictactoe.rs:16-21 | the new game is the game `from` builds for an empty board |
| `TicTacToe.FromAlternates` | learning/src/tictactoe.rs:23-32 | filling one blank changes the mover `from` computes |
| `TicTacToe.FirstComplete` | learning/src/tictactoe.rs:38-63 | the first complete line in row, column, diagonal order, or none |
| `TicTacToe.Verdict` | learning/src/tictactoe.rs:36-73 | a win exactly when some line is complete, for the mark of a complete line; playing exactly when no line is complete and a blank is left; a draw exactly when no line is complete and no blank is left |
| `TicTacToe.Evaluate` | learning/src/tictactoe.rs:36-73 | the early-return scan of rows, columns and diagonals equals the line-by-line `Verdict` |
| `TicTacToe.Placements` | learning/src/tictactoe.rs:78-89 | one entry per blank cell, in increasing order, with the mover placed there |
| `TicTacToe.PlacementsCount` | learning/src/tictactoe.rs:78-89 | as many entries as blank cells |
| `TicTacToe.PlacementsCover` | learning/src/tictactoe.rs:78-89 | every blank cell has an entry |
| `TicTacToe.SuccessorsAreBlanks` | learning/src/tictactoe.rs:75-92 | none exactly for a won or drawn board; otherwise one successor per blank, and only for blanks |
| `TicTacToe.Moves` | learning/src/tictactoe.rs:75-92 | the push loop computes the successors |
| `TicTacToe.LegalFrom` | learning/src/tictactoe.rs:23-32 | on a legal board, `from` recomputes the mover |
| `TicTacToe.PlacedLegal` | learning/src/tictactoe.rs:116-128 | placing the mover on a blank keeps the game legal |
| `TicTacToe.SuccessorsLegal` | learning/src/tictactoe.rs:75-92 | every successor of a legal game is legal |
| `TicTacToe.Format` | learning/src/tictactoe.rs:198-200 | the nine cells read as characters |
| `TicTacToe.FormatInjective` | learning/src/tictactoe.rs:198-200 | different boards have different keys |
| `TicTacToe.ApplyIsMove` | learning/src/tictactoe.rs:116-128 | playing a successor's index gives that successor |
| `TicTacToe.Record` | learning/src/tictactoe.rs:119-125 | the history entry: the new board's key, the cell played, and the number of moves, which is the number of blanks while in play and 0 once the game is over |
| `TicTacToe.TurnStep` | learning/src/tictactoe.rs:103-129 | one answer succeeds exactly for mover X or O and an answer that is absent or a `usize`; a present answer plays `Apply` and records the move exactly when it hit a blank cell in range; an absent one changes nothing |
| `TicTacToe.Run` | learning/src/tictactoe.rs:103-131 | answers are applied in turn: the match ends at the first panic, on the answer that caused it, or at the first win or draw, which is the verdict on the final board; it reads every answer only while still in play |
| `TicTacToe.RunFirst` | learning/src/tictactoe.rs:103-131 | a match that reads more than one answer got past the first one without a panic and still in play |
| `TicTacToe.RunCons` | learning/src/tictactoe.rs:103-131 | an answer that leaves the game in play hands the rest of the match, unchanged, to the remaining answers |
| `TicTacToe.RunConsPrefix` | learning/src/tictactoe.rs:103-131 | the same hand-over for the match cut after its first `k` answers |
| `TicTacToe.RunPrefixPlaying` | learning/src/tictactoe.rs:103-131 | every answer before the last one read left the game in play: the match over the first `k` answers reads them all and its verdict is Playing |
| `TicTacToe.RunPrefix` | learning/src/tictactoe.rs:103-131 | the match continues from the game and history its first `k` answers left, reading the remaining answers |
| `TicTacToe.Table.constructor` | learning/src/tictactoe.rs:101 | a match on the given game with an empty history |
| `TicTacToe.Table.Turn` | learning/src/tictactoe.rs:103-131 | panics exactly on a bad mover or an answer that is not a number, changing nothing; otherwise computes `TurnStep`: a usable index plays it and records it, anything else leaves the board; the verdict is returned |
| `TicTacToe.Table.Play` | learning/src/tictactoe.rs:94-131 | the loop computes `Run` from the current game and history: the verdict or panic, the final game and history, and the answers read |
| `LearningTree.MovesFewerBlanks` | learning/src/main.rs:71-73 | every successor has a mover and fewer blanks, so the recursion terminates |
| `LearningTree.Reach` | learning/src/main.rs:46-77 | the boards reachable from a board include the board |
| `LearningTree.EntryShape` | learning/src/main.rs:48-57 | nine entries: zero on a finished board, otherwise 1/|moves| on blanks and 0 on occupied cells |
| `LearningTree.RowChecks` | learning/src/main.rs:59-67 | the loop's row has as many positive entries as moves, and a positive sum |
| `LearningTree.EntryChecks` | learning/src/main.rs:59-67 | the asserts hold: positive entries match the moves, and the sum is positive unless the board is full |
| `LearningTree.SameKeySameEntry` | learning/src/main.rs:69 | boards with the same key get the same entry, so the map is well defined |
| `LearningTree.Probabilities` | learning/src/main.rs:48-57 | the zeroing loop computes the row |
| `LearningTree.Tree.constructor` | learning/src/main.rs:46 | an empty table |
| `LearningTree.Tree.Build` | learning/src/main.rs:46-77 | inserts the key of every reachable board, with its entry, and keeps the other keys |
| `LearningTree.Tree.BuildBelow` | learning/src/main.rs:71-73 | the recursive calls insert the subtrees of every successor |
| `LearningTree.Step` | learning/src/main.rs:71-73 | inserting one more subtree keeps every entry already stored right, since equal keys mean equal entries |
| `Game.Make` | learning/python/game.py:70-96 | a string is accepted exactly when valid, an integer is decoded, any other type fails; the mover follows from the counts |
| `Game.Show` | learning/python/game.py:116-122 | the printed board is the state |
| `Game.ShowMake` | learning/python/game.py:116-122 | a game rebuilt from its printed board is the same game |
| `Game.Move` | learning/python/game.py:130-137 | an index outside −9..8 and an occupied cell fail; a move in 0..8 puts the mover there and changes nothing else; every successful move is a valid game with the mover that follows from the counts |
| `Game.PlaceValid` | learning/python/game.py:130-137 | placing the mover on a space keeps the state valid and uses one space |
| `Game.MovePlaces` | learning/python/game.py:130-137 | an occupied square fails; a space gets the mover and nothing else changes |
| `Game.MoveNegative` | learning/python/game.py:130-137 | Python's negative indices wrap, and −1 fails by slicing |
| `Game.Moves` | learning/python/game.py:124-125 | when iteration succeeds it yields one valid game per space among the cells visited |
| `Game.NumMoves` | learning/python/game.py:160-161 | at most 9, and 0 exactly on a full board |
| `Game.MovesFromValid` | learning/python/game.py:124-125 | on a valid game iteration never fails, and yields as many successors as there are spaces among the cells visited |
| `Game.MovesStep` | learning/python/game.py:124-125 | the successors come in index order: an occupied cell adds nothing, and a space adds its move after the earlier ones |
| `Game.MovesValid` | learning/python/game.py:124-125 | every successor is valid and has one move fewer |
| `Game.IterCount` | learning/python/game.py:160-161 | there are `numMoves` successors |
| `Game.LinesFrom` | learning/python/game.py:140-153 | the winner reported is a complete line's symbol, and none means no complete line |
| `Game.GetStatus` | learning/python/game.py:139-158 | won exactly with a complete line, drawn exactly without one and without a space, playing otherwise |
| `Game.ThreeOnBoard` | learning/python/game.py:148-153 | the Python line test agrees with the Rust one |
| `Game.StatusIsVerdict` | learning/python/game.py:139-158 | the Python status agrees with the Rust `evaluate` |
| `Game.Layout` | learning/python/game.py:163-180 | 24 bits: occupancy, X cells, X to move, and the space count in five bits |
| `Game.Encode` | learning/python/game.py:182-197 | the loops compute the encoding |
| `Game.Decode` | learning/python/game.py:199-210 | the loop computes the decoding |
| `Game.EncodeLayout` | learning/python/game.py:182-197 | the encoding is below 2^24 and its 24 binary digits are the layout |
| `Game.PaddedEncoding` | learning/python/game.py:200-201 | zero-filling the encoding to 24 digits, as `decode` does, gives back the layout |
| `Game.DecodeEncode` | learning/python/game.py:56-60 | decoding the encoding gives the state back |
| `ReversiText.Opponent` | learning/python/reversi/test_reversi.py:8 | the other piece, never empty |
| `ReversiText.Flips` | learning/python/reversi/test_reversi.py:7-22 | the walk computes the bracketing test |
| `ReversiText.WalkReaches` | learning/python/reversi/test_reversi.py:14-22 | a successful walk crosses opponents to the player's own piece |
| `ReversiText.FlipsReaches` | learning/python/reversi/test_reversi.py:7-22 | a successful `flips` starts next to an opponent and reaches the player's own piece |
| `ReversiText.EdgeCaptureRefused` | learning/python/reversi/test_reversi.py:20-22 | a capture ending in cell 0 is refused though it is bracketed |
| `ReversiText.GuardInside` | learning/python/reversi/test_reversi.py:35-38 | the guards keep the first step on the board |
| `ReversiText.ValidMove` | learning/python/reversi/test_reversi.py:27-46 | valid exactly on an empty square of the board from which some guarded direction flips |
| `ReversiText.AnyCapturesSome` | learning/python/reversi/test_reversi.py:39-46 | the or-chain holds exactly when some guarded direction flips |
| `ReversiText.ValidMoveCaptures` | learning/python/reversi/test_reversi.py:27-46 | valid exactly on an empty on-board square with a flipping direction |
| `ReversiText.ReachesRay` | learning/python/reversi/main.py:13-21 | a `flips` walk is a `main.py` ray |
| `ReversiText.StepIsOffset` | learning/python/reversi/main.py:10 | the eight steps are the eight `main.py` offsets |
| `ReversiText.ValidMoveIsLegal` | learning/python/reversi/test_reversi.py:27-46 | every valid move is a legal `main.py` move |
| `ReversiText.EdgeCaptureDisagrees` | learning/python/reversi/test_reversi.py:20-22 | a board where `main.py` allows a move that `validMove` refuses |
| `ReversiText.FlipRun` | learning/python/reversi/test_reversi.py:52-59 | keeps the length, turns only opponents into the piece, and leaves the cells behind the start alone |
| `ReversiText.ApplyFlip` | learning/python/reversi/test_reversi.py:52-59 | the rebuild loop computes `FlipRun` |
| `ReversiText.FlipFrom` | learning/python/reversi/test_reversi.py:78-93 | the cell played is untouched, and only opponents turn into the piece |
| `ReversiText.FlipFromTurns` | learning/python/reversi/test_reversi.py:78-93 | a valid move turns at least one opponent piece |
| `ReversiText.PlayedEffect` | learning/python/reversi/test_reversi.py:78-95 | the cell gets the piece, only opponents change, and at least one does |
| `ReversiText.Game.constructor` | learning/python/reversi/test_reversi.py:137 | the game starts on the initial board |
| `ReversiText.Game.ApplyMove` | learning/python/reversi/test_reversi.py:64-97 | false and no change on an invalid move; otherwise the board becomes the played board |
| `ReversiText.FlipAll` | learning/python/reversi/test_reversi.py:78-93 | the direction loop computes `FlipFrom` |
| `ReversiText.ValidBelowZero` | learning/python/reversi/test_reversi.py:115-119 | the count is zero exactly when no index is valid |
| `ReversiText.CountPossibleMoves` | learning/python/reversi/test_reversi.py:115-119 | counts the valid indices, at most 36, and zero exactly when there is none |
| `ReversiText.GetEndgameStatus` | learning/python/reversi/test_reversi.py:125-133 | the X count minus the O count, within [−36, 36] |
| `Reversi.Toggle` | learning/python/reversi/main.py:48 | the other player |
| `Reversi.Offset` | learning/python/reversi/main.py:10 | the eight non-zero offsets, no more than seven |
| `Reversi.Flags` | learning/python/reversi/main.py:13-21 | one flag per direction |
| `Reversi.RayNeedsOpponent` | learning/python/reversi/main.py:13-21 | a ray starts on an opponent's piece |
| `Reversi.RayEmptyMover` | learning/python/reversi/main.py:13-21 | no ray closes for an empty mover |
| `Reversi.DirectionsBits` | learning/python/reversi/main.py:22-24 | the mask fits in 8 bits, with offset −7's flag in bit 7 and offset −1's in bit 0 |
| `Reversi.DirectionsNonZero` | learning/python/reversi/main.py:22-24 | the mask is non-zero exactly when some direction closes |
| `Reversi.CheckDirections` | learning/python/reversi/main.py:6-24 | the shifting loops compute the mask |
| `Reversi.Paint` | learning/python/reversi/main.py:40-45 | repainting a ray only turns occupied cells into the mover and leaves the cells behind it alone |
| `Reversi.PaintFrom` | learning/python/reversi/main.py:38-46 | repainting the flagged rays never touches x |
| `Reversi.MoveEffect` | learning/python/reversi/main.py:30-48 | x gets the mover, other changes turn occupied cells into the mover, the other player moves next |
| `Reversi.MoveFillsOne` | learning/python/reversi/main.py:30-48 | a move on an empty square uses up exactly one empty square |
| `Reversi.Move` | learning/python/reversi/main.py:30-48 | the copy-and-paint loop computes the successor |
| `Reversi.PaintRay` | learning/python/reversi/main.py:40-45 | the ray loop computes `Paint` |
| `Reversi.Legal` | learning/python/reversi/main.py:66-67 | a square is kept exactly when it is empty and some ray from it captures |
| `Reversi.FlagLegal` | learning/python/reversi/main.py:62-70 | an empty square with a closing direction is legal |
| `Reversi.InitialLegal` | learning/python/reversi/main.py:50-61 | from the initial board, squares 9, 16, 19 and 26 are legal |
| `Reversi.InitialOnly` | learning/python/reversi/main.py:50-70 | from the initial board no other square is legal |
| `Reversi.InitialRay` | learning/python/reversi/main.py:10-21 | on the initial board X captures along four rays only: left and down from 15, up and right from 20 |
| `Reversi.MovesBelow` | learning/python/reversi/main.py:62-70 | at most one successor per square |
| `Reversi.Moves` | learning/python/reversi/main.py:62-70 | the generator computes the successors |
| `Reversi.MovesFewerEmpty` | learning/python/reversi/main.py:62-70 | every successor has one empty square fewer |
| `Reversi.LegalFillsOne` | learning/python/reversi/main.py:62-70 | a legal move uses exactly one empty square |
| `Reversi.MovesSound` | learning/python/reversi/main.py:62-70 | every successor is the move at a legal square |
| `Reversi.MovesComplete` | learning/python/reversi/main.py:62-70 | every legal square's move is among the successors |
| `Reversi.Leaves` | learning/python/reversi/main.py:73-79 | `count` is at least 1 |
| `Reversi.SumLeaves` | learning/python/reversi/main.py:77-79 | the sum over successors is at least their number |
| `Reversi.LeavesBound` | learning/python/reversi/main.py:73-79 | `count` is at least the number of moves, and 1 without moves |
| `Reversi.Show` | learning/python/reversi/main.py:26-28 | 41 characters: cell i is printed at row i / 6, column i % 6, and each of the first five rows ends in a newline |
| `Reversi.Rows` | learning/python/reversi/main.py:26-28 | six rows of six cells separated by newlines |
| `ReversiBits.BoardBits` | learning/python/reversi/test.py:16-20 | board bit i is set exactly for 'X' (or '1') |
| `ReversiBits.MaskBits` | learning/python/reversi/test.py:16-20 | mask bit i is set exactly for 'X', 'O' (or '1') |
| `ReversiBits.Make` | learning/python/reversi/test.py:5-27 | a string of accepted characters or a bit pair is accepted with a valid `next`; anything else fails |
| `ReversiBits.CellsOf` | learning/python/reversi/test.py:47-57 | the cell each board and mask bit pair stands for |
| `ReversiBits.TextRoundTrip` | learning/python/reversi/test.py:5-57 | a board built from a string shows that string again |
| `ReversiBits.BitFlags` | learning/python/reversi/test.py:29-45 | one flag per direction, the ray test in that direction |
| `ReversiBits.CheckDirections` | learning/python/reversi/test.py:29-45 | the loops compute the flags |
| `ReversiBits.BitRayInverted` | learning/python/reversi/test.py:29-45 | the ray test is `main.py`'s with the players swapped |
| `ReversiBits.FlagsInverted` | learning/python/reversi/test.py:29-45 | the flags are `main.py`'s with the players swapped |
| `ReversiBits.BitPaint` | learning/python/reversi/test.py:68-72 | repainting only writes the mover's bit over the mover's own cells |
| `ReversiBits.BitPaintFrom` | learning/python/reversi/test.py:66-72 | the flagged rays never touch x |
| `ReversiBits.BitSuccessor` | learning/python/reversi/test.py:59-77 | the successor is a 36-cell board |
| `ReversiBits.Move` | learning/python/reversi/test.py:59-77 | the loops compute the successor |
| `ReversiBits.PaintRay` | learning/python/reversi/test.py:68-72 | the ray loop computes `BitPaint` |
| `ReversiBits.MoveChangesOnlyX` | learning/python/reversi/test.py:59-77 | only x's board bit changes, the old mask is kept, and the mover toggles |
| `ReversiBits.MoveShown` | learning/python/reversi/test.py:59-77 | shown as text, a move from a string board only rewrites x |
| `ReversiBits.BitMovesBelow` | learning/python/reversi/test.py:79-88 | one successor per square whose mask bit is 0 |
| `ReversiBits.Moves` | learning/python/reversi/test.py:79-88 | the generator computes the successors |
| `ReversiBits.Show` | learning/python/reversi/test.py:47-57 | the printed board is the six rows of the cells |
| `ReversiBits.ShowText` | learning/python/reversi/test.py:47-57 | a string board prints as `main.py` prints it |
| `Draws.Source.GenBool` | genetic/src/genetic.rs:211 | rate 0 never fires, rate 1 always fires, and one uniform sample is used |
| `Draws.Source.GenRange` | genetic/src/problems.rs:114 | a value inside the range, and one word used |
| `Draws.Pick` | genetic/src/genetic.rs:424-427 | the cumulative search lands on an index with positive weight |
| `Draws.SampleWeighted` | genetic/src/genetic.rs:405-426 | fails exactly on a zero total; otherwise an index with positive weight |
| `Draws.ChooseMultiple` | genetic/src/genetic.rs:216-223 | `amount` distinct values in the range, or the whole range when it is smaller |
| `Draws.Replace` | genetic/src/genetic.rs:216-223 | the reservoir step keeps the reservoir distinct and inside the range |
| `Sorting.SortBy` | genetic/src/genetic.rs:306 | the sort is a sorted permutation |
| `Sorting.InsertClass` | genetic/src/genetic.rs:306 | inserting `x` puts it at the front of its own class of equivalent elements and leaves every class in order |
| `Sorting.SortByStable` | genetic/src/genetic.rs:306 | the sort is stable: each class of equivalent elements keeps its order |
| `Sorting.SortInts` | genetic/src/genetic.rs:225 | the sorted points are a permutation in non-decreasing order |
| `Sorting.SortDistinct` | genetic/src/genetic.rs:225 | sorting distinct points gives strictly increasing points with the same members |
| `Text.Count` | learning/python/game.py:160-161 | a count is at most the length, and zero exactly for an absent item |
| `Text.CountAppend` | learning/python/game.py:160-161 | counts add over concatenation |
| `Text.RemoveAll` | genetic/src/problems.rs:165 | no removed character is left, and the length drops by exactly their number |
| `Text.RemoveAllCounts` | genetic/src/problems.rs:165 | every other character keeps its count |
| `Text.Split` | genetic/src/problems.rs:164-168 | one more field than separators, none of them holding the separator |
| `Text.JoinSplit` | knapsack/src/main.rs:79 | joining the fields gives the line back |
| `Text.SplitJoin` | knapsack/generateSets.py:62 | splitting joined pieces without separators gives the pieces back |
| `Text.ParseUsize` | genetic/src/problems.rs:173 | a parsed `usize` is below 2^64, and an empty string does not parse |
| `Text.Decimal` | knapsack/generateSets.py:60 | a non-empty run of decimal digits |
| `Text.DecimalValue` | knapsack/generateSets.py:60 | the digits have the number's value |
| `Text.ParseDecimal` | knapsack/src/main.rs:85 | `parse::<usize>` reads a printed number back |
| `Binary.DigitsBit` | learning/python/reversi/main.py:39 | digit j of a w-digit binary string is bit w − 1 − j of the number |
| `Binary.DigitsOfFromDigits` | learning/python/game.py:197 | `int(..., 2)` of a binary string is below 2^width and prints back as that string |
| `Binary.WidthBound` | learning/python/game.py:201 | a number below 2^w needs no more than w binary digits |

## Left out

- Randomness is modelled as arbitrary streams, never as distributions. No statement is made about how likely an outcome is.
- Floating point is modelled as exact reals. Rounding, `partial_cmp(...).expect("Illegal fitness")` on NaN, and the sigmoid's rounding are not modelled. Only the f64 division by zero in `genetic-algorithms/src/problems/knapsack.rs` keeps its infinity and NaN.
- The reward and punishment update of the probability table in `play` (learning/src/tictactoe.rs:136-188) is floating-point learning and is not modelled. `play` is modelled up to the verdict.
- `TicTacToe.Table.Play`: the players are a sequence of answers, so a game can run out of answers while still playing. The source would ask again.
- I/O is replaced by sequences of lines: `File::open`, `BufReader`, serde_json load and save, stdin players, printing, and the `given.txt`/`mine.txt` writes. A file that cannot be opened is not modelled; it panics in every parser.
- Logging, `Display` implementations, colour, and progress bars are not modelled, and neither are the thief's `Display` and the sort keys of its `main` (knapsack/src/main.rs:242-280).
- The command-line front ends are not modelled:
  - the clap argument structs;
  - `Generation::from`'s reading of the problem file and its initial sort (genetic/src/genetic.rs:274-287), of which only the struct literal is modelled;
  - `genetic/src/main.rs`;
  - `main` in `genetic-algorithms/src/main.rs`, which calls a `knapsack::knapsack` that does not exist;
  - the `argparse` and sampling front end of `knapsack/generateSets.py`, whose draws are parameters.
- `Genetic.Generation.GenerateGenitors`: the new genotypes are given as a function instead of `Problem::generate_genotype` drawing random genes.
- `Draws.Source.GenBool` requires a probability in [0, 1]. `rand`'s `gen_bool` panics outside that range, and that panic is not modelled. The requirement passes to every member that draws a coin from a configured rate: `Genetic.ReproduceSpec`, `Genetic.Reproduce`, `Genetic.Mate`, `Genetic.BreedSpec`, `Genetic.Generation.constructor`, `Genetic.Generation.Round`, `Genetic.Generation.Breed`, `KnapsackProblem.MutateGene`, `KnapsackProblem.MutatePrefix`, `KnapsackProblem.Mutate`, `StringGenetic.MutateGene`, `StringGenetic.MutatePrefix`, `StringGenetic.MutateSpec`, `StringGenetic.MutateAt`, `StringGenetic.MutateString`, `StringGenetic.Mutate`, `StringGenetic.ReproduceSpec` and `StringGenetic.Reproduce`. A `skip` or mutation rate outside [0, 1] is outside the model.
- `Genetic.Generation.constructor`: the model requires an intermediate capacity of at least 1. Growing a `Vec` created with capacity 0 is not modelled.
- `genetic-algorithms/src/main.rs` repeats `mutate`, `reproduce`, `generate_genitors` and `generate_population` of `lib.rs` line for line, so the two share one model. `genetic-algorithms/src/problems/knapsack.rs`'s `parse_file` is line for line that of `genetic/src/problems.rs` and shares `KnapsackProblem.ParseFile`.
- Integer widths:
  - `usize` overflow of the weight and value sums is not modelled (sums are unbounded);
  - `2_usize.pow(n)` is modelled as failing from 64 items on;
  - Python integers are unbounded as in Python.
- Strings are sequences of characters. Rust byte slicing and Python indexing assume ASCII text, which is what the programs handle.
- `Game.Make`:
  - an integer argument is decoded the way `decode` reads it, and a negative one is not modelled;
  - the messages of `ValueError` and `TypeError` are abbreviated.
- `ReversiBits.Make`:
  - a board given as something other than a string or a pair of bitarrays is not modelled;
  - neither are whitespace in bitarray strings and bitarrays that are not 36 long;
  - `next` is kept as a boolean, not as 1 and 0.
- `ReversiBits.CheckDirections`: `bitarray(8)` is taken as starting cleared. `test.py` never clears it. `moves` tests only the array's truth, which holds for every eight-bit array. `move` does read the flags, but on a consistent board they change nothing (`ReversiBits.MoveChangesOnlyX`). Leftover set bits could matter only on an inconsistent board, which the model does not cover.
- `LearningTree.Tree.Build`: the test at learning/src/main.rs:165 expects 362880 entries. Keys are board strings, so the real count is the number of distinct reachable boards. The model proves which keys are present, not a count.
- `Game.GetStatus`: returns the winner instead of storing it in `self.winner`.
- `ReversiText.Flips`: the starting index is required to be on the board, which every guarded call in `validMove` ensures. Python's wrap-around for a negative index is not modelled.
- The module-level game loop of `test_reversi.py` (lines 136-254) and `printBoard` are drivers and printing, and are not modelled.
