# TSP metaheuristics: the combinatorial core in Dafny

This project models the combinatorial core of the travelling-salesman metaheuristics of the
`meh` course repository, and proves properties of that model. The core is the
integer-sequence manipulation that the float goal and the random streams drive. It falls into
four groups:

- **The positional-bound ("alternative") encoding and its operators.** Gene `i` of a solution
  lies in `[0, |s|-i)`, and decoding picks the `s[i]`-th remaining city without replacement.
  The operators are one- and two-point gene-exchange crossover, the descending single-gene
  mutation, the factories that pick operators by name, and the `2(n-1)` neighbours of a
  solution. All of them keep the positional bound with no repair step.
- **The permutation operators of the island program.** These are `init_pop`
  (selection without replacement), the OX crossover `corssover_ox` built from `swap_part`,
  and `mutation_swap`. All of them keep "is a permutation of `[0,n)`".
- **The selection rules over a fitness vector.** These are the tournament of two (a tie goes
  to the second draw), the roulette walked from the end, and rank selection (a roulette over
  the weights `1..N` after sorting by fitness).
- **The search loops.** These are:
  - brute force over an abstract successor;
  - randomized and best-improvement hill climbing;
  - tabu search with a FIFO list;
  - the generational GA of the older driver, with its inverted probability gates;
  - the island program `ep`: deme slicing, one `ga_iteration` per deme, ring migration in
    ranked or random-replace mode, and flattening;
  - its termination predicates: the countdown, `iteration < count` and the no-improvement
    window.

The goal and the fitness are function-valued parameters `seq<int> -> real`. Every random draw
is an explicit argument: a record per draw, with its range as a precondition. Loops whose
length the source leaves to the random stream or to the termination predicate take a finite
sequence of draw records, one per round.

Modules, one per file, follow the program's structure:

| module | file | what |
|---|---|---|
| `Seqs` | sequences.dfy | ranges, permutations, removal, sums, first maximum, sorting, flattening |
| `Errors` | errors.dfy | `Result` = `Ok` or a thrown `invalid_argument` / `out_of_range` |
| `Encoding` | encoding.dfy | the positional bound, decoding by selection without replacement, its inverse |
| `Selection` | selection.dfy | tournament, roulette, rank, `selection_factory` |
| `AltOperators` | alt_operators.dfy | crossovers, mutation and factories on the alternative encoding |
| `Config` | config.dfy | `std::stoi`, `term_condition_factory`, the countdown |
| `PermOperators` | perm_operators.dfy | `init_pop`, OX, `mutation_swap`, `select` |
| `Island` | island.dfy | `ga_iteration`, demes, ranked and random-replace migration |
| `IslandLoop` | island_loop.dfy | termination predicates, one round of `ep`, the `ep` loop |
| `Generational` | generational.dfy | `genetic_algorithm` with its local operators |
| `LocalSearch` | local_search.dfy | neighbours, `operator==`, hill climbs, tabu search, brute force |

## Model

| member | source | states |
|---|---|---|
| Seqs.FirstMax | dawniejsze/older/2020-2021/12_ga_island/generic_ga.cpp:81-83 | the index is a maximum of the key, and every earlier element is strictly below it: the element `max_element` returns |
| Seqs.SortBy | dawniejsze/older/2020-2021/12_ga_island/generic_ga.cpp:71-73 | sorting keeps exactly the members (same multiset) and orders them by ascending key |
| Seqs.Without | dawniejsze/older/2019_2020/dzienne_2019_2020/5/salesman.cpp:178-185 | what is left is drawn from the input and avoids the list, and every input element not on the list survives |
| Encoding.RemoveAt | dawniejsze/older/2020-2021/12_ga_island/generic_ga.cpp:169 | `erase` leaves one element fewer, and the rest plus the erased element are the old members |
| Encoding.Decode | dawniejsze/older/2020-2021/12_ga_island/generic_ga.cpp:165-170 | picking without replacement gives one city per draw and, over a full pool, exactly the pool's cities |
| Encoding.DecodeIsTour | dawniejsze/older/2020-2021/12_ga_island/generic_ga.cpp:163-170 | every draw vector within the positional bound decodes to a permutation of `[0,n)` |
| Encoding.DecodeEncode | dawniejsze/older/2020-2021/12_ga_island/generic_ga.cpp:163-170 | every arrangement of the pool is the decoding of some draw vector (encoding, then decoding, gives it back) |
| Encoding.EncodeDecode | dawniejsze/older/2020-2021/12_ga_island/generic_ga.cpp:163-170 | decoding loses nothing: encoding the decoded tour gives back the draws, so distinct draws give distinct tours |
| PermOperators.Numbers | dawniejsze/older/2020-2021/12_ga_island/generic_ga.cpp:163-164 | the fill of `numbers` is exactly 0, 1, ..., n-1 |
| PermOperators.DrawIndividual | dawniejsze/older/2020-2021/12_ga_island/generic_ga.cpp:162-171 | the individual is the decoding of its n draws, and `numbers` is empty again afterwards |
| PermOperators.InitPop | dawniejsze/older/2020-2021/12_ga_island/generic_ga.cpp:157-174 | `s` individuals (none when `s <= 0`), each the decoding of its own draws and a permutation of `[0,n)` |
| PermOperators.EraseEach | dawniejsze/older/2020-2021/12_ga_island/generic_ga.cpp:215-216 | erasing the segment's genes one by one leaves `p2` without exactly those genes, in its order |
| PermOperators.SwapPart | dawniejsze/older/2020-2021/12_ga_island/generic_ga.cpp:213-221 | the child carries `p1`'s segment at `[lo,hi)` and, around it, `p2` with the segment's genes removed |
| PermOperators.SwapPartPermutes | dawniejsze/older/2020-2021/12_ga_island/generic_ga.cpp:213-221 | for parents with the same distinct genes, `swap_part` is defined and the child has exactly `p2`'s genes |
| PermOperators.Ox | dawniejsze/older/2020-2021/12_ga_island/generic_ga.cpp:204-224 | after the cuts are ordered, child 1 carries `p1`'s genes in `[lo,hi)` and, around them in order, `p2` without those genes; child 2 symmetrically |
| PermOperators.OxPermutes | dawniejsze/older/2020-2021/12_ga_island/generic_ga.cpp:204-224 | two tours of `n` cities and any two cuts in `[0,n)` give two tours of `n` cities |
| PermOperators.OxEqualCuts | dawniejsze/older/2020-2021/12_ga_island/generic_ga.cpp:208-223 | equal cuts give the parents back in exchanged order, `(p2, p1)` |
| PermOperators.OxIgnoresProbability | dawniejsze/older/2020-2021/12_ga_island/generic_ga.cpp:204-224 | the children do not depend on the `p_crossover` argument |
| PermOperators.MutationSwap | dawniejsze/older/2020-2021/12_ga_island/generic_ga.cpp:227-239 | the genes are kept as a multiset; a draw `>= pm` returns the input; otherwise genes `i` and `j` are exchanged and nothing else moves |
| PermOperators.SelectChromosome | dawniejsze/older/2020-2021/12_ga_island/generic_ga.cpp:195-202 | `select` returns one of the two drawn members, at least as fit as both, the second one unless the first is strictly fitter; it is the member at the index the fitness-vector tournament picks |
| Selection.Tournament | dawniejsze/older/2019_2020/dzienne_2019_2020/10/src/salesman.cpp:182-189 | the result is one of the draws and at least as fit as both; it is the first draw exactly when that is strictly fitter or both draws coincide |
| Selection.Roulette | dawniejsze/older/2019_2020/dzienne_2019_2020/10/src/salesman.cpp:194-204 | the result is the largest index whose prefix sum does not exceed `u`, or 0, and it is in range |
| Selection.RouletteInterval | dawniejsze/older/2019_2020/dzienne_2019_2020/10/src/salesman.cpp:194-204 | for non-negative fitnesses and `u` in `[0,sum)` the chosen slice of the wheel holds `u` and has positive width, so index `r` is chosen with weight `f[r]` |
| Selection.RankWeightsPrefix | dawniejsze/older/2019_2020/dzienne_2019_2020/10/src/salesman.cpp:220-223 | the first `k` rank weights sum to `k(k+1)/2` |
| Selection.RankOrder | dawniejsze/older/2019_2020/dzienne_2019_2020/10/src/salesman.cpp:212-219 | the indices, each once, ordered by ascending fitness |
| Selection.Rank | dawniejsze/older/2019_2020/dzienne_2019_2020/10/src/salesman.cpp:209-225 | the result is an index of the vector |
| Selection.RankSelectsByRank | dawniejsze/older/2019_2020/dzienne_2019_2020/10/src/salesman.cpp:209-225 | the individual of ascending rank `pos+1` is chosen exactly when `u` falls in a slice of width `pos+1`, so its weight is its rank |
| Selection.SelectionFactory | dawniejsze/older/2019_2020/dzienne_2019_2020/10/src/salesman.cpp:227-237 | roulette and rank exactly for their names; every other name gives the tournament |
| Selection.SelectionName | dawniejsze/older/2019_2020/dzienne_2019_2020/10/src/salesman.cpp:230-235 | each operator's name leads the factory back to that operator |
| Selection.Select | dawniejsze/older/2019_2020/dzienne_2019_2020/10/src/salesman.cpp:227-237 | the operator the factory returns picks an index of a non-empty vector |
| AltOperators.OnePoint | dawniejsze/older/2019_2020/dzienne_2019_2020/10/src/salesman.cpp:39-51 | lengths are kept; before the cut each child equals its own parent, from the cut on the genes are exchanged |
| AltOperators.OnePointAtStart | dawniejsze/older/2019_2020/dzienne_2019_2020/10/src/salesman.cpp:41-49 | a cut at 0 gives `(b, a)` |
| AltOperators.OnePointAtLast | dawniejsze/older/2019_2020/dzienne_2019_2020/10/src/salesman.cpp:41-49 | a cut at the last gene gives the parents back, because the bound pins that gene to 0 |
| AltOperators.OnePointInvolution | dawniejsze/older/2019_2020/dzienne_2019_2020/10/src/salesman.cpp:46-49 | crossing the children again at the same cut restores the parents |
| AltOperators.TwoPoint | dawniejsze/older/2019_2020/dzienne_2019_2020/10/src/salesman.cpp:53-69 | after ordering the cuts, exactly the genes in `[lo,hi)` are exchanged and all others are kept |
| AltOperators.TwoPointEqualCuts | dawniejsze/older/2019_2020/dzienne_2019_2020/10/src/salesman.cpp:59-67 | equal cuts return copies of the parents |
| AltOperators.TwoPointSymmetric | dawniejsze/older/2019_2020/dzienne_2019_2020/10/src/salesman.cpp:55-60 | the order in which the two cuts were drawn does not matter |
| AltOperators.ExchangeKeepsBound | dawniejsze/older/2019_2020/dzienne_2019_2020/10/src/salesman.cpp:39-69 | children whose every gene comes from a parent at the same index keep the positional bound |
| AltOperators.ChangeOneGene | dawniejsze/older/2019_2020/dzienne_2019_2020/10/src/salesman.cpp:79-84 | only gene `pos` changes, to the drawn value, and the bound is kept |
| AltOperators.MutationDescending | dawniejsze/older/2019_2020/dzienne_2019_2020/10/src/salesman.cpp:74-88 | a draw `>= p` returns the input; otherwise gene `pos` takes the drawn value and nothing else changes; the last gene never changes and the bound is kept |
| AltOperators.MutationUndo | dawniejsze/older/2019_2020/dzienne_2019_2020/10/src/salesman.cpp:78-84 | writing the old gene back at the drawn position undoes a mutation |
| AltOperators.CrossoverFactory | dawniejsze/older/2019_2020/dzienne_2019_2020/10/src/salesman.cpp:108-142 | two-point exactly for its name, one-point otherwise, a warning exactly for an unknown name, and the probability is carried |
| AltOperators.MutationFactory | dawniejsze/older/2019_2020/dzienne_2019_2020/10/src/salesman.cpp:90-106 | always the descending mutation with the given probability, with a warning exactly for any other name |
| AltOperators.ApplyCrossover | dawniejsze/older/2019_2020/dzienne_2019_2020/10/src/salesman.cpp:114-136 | a draw `>= p` returns the parents; otherwise the named operator runs at the drawn cuts, one-point at `cut1` or two-point at `cut1`, `cut2`; genes are exchanged index by index and the bound is kept |
| AltOperators.ApplyCrossoverInvolution | dawniejsze/older/2019_2020/dzienne_2019_2020/10/src/salesman.cpp:114-136 | crossing the children again with the same draws restores the parents, for either operator and either gate outcome |
| AltOperators.ApplyMutation | dawniejsze/older/2019_2020/dzienne_2019_2020/10/src/salesman.cpp:93-97 | a draw `>= p` returns the input; otherwise gene `pos` takes the drawn value; the length and the bound are kept |
| Config.StoI | dawniejsze/older/2019_2020/dzienne_2019_2020/10/src/salesman.cpp:172-173 | `std::stoi` throws `invalid_argument` exactly when no digits follow the white space and sign; a value it returns fits in `int` |
| Config.StoIDecimal | dawniejsze/older/2019_2020/dzienne_2019_2020/10/src/salesman.cpp:172-173 | `std::stoi` reads back every `int` written in decimal |
| Config.IterationCount | dawniejsze/older/2019_2020/dzienne_2019_2020/10/src/salesman.cpp:172-173 | the count is 10 when the key is missing and the parsed value (or its exception) otherwise |
| Config.IterationCountReadsBack | dawniejsze/older/2019_2020/dzienne_2019_2020/10/src/salesman.cpp:172-179 | a count given in decimal is the count the predicate compares against |
| Config.CountdownMatchesBudget | old_/2019_2020/dzienne_2019_2020/9/src/salesman.cpp:177-185 | from `k >= 0` the loop body runs exactly `k` times, and call `j` continues exactly when `j < k` |
| Config.CountdownNegative | old_/2019_2020/dzienne_2019_2020/9/src/salesman.cpp:177-185 | from a negative count the countdown never says "stop" before the fuel runs out (unbounded counter) |
| Generational.Parents | old_/2019_2020/dzienne_2019_2020/9/src/salesman.cpp:49-54 | exactly `n` parents, each a member of the population at one of its two draws, at least as fit as both, the second on a tie |
| Generational.Pair | old_/2019_2020/dzienne_2019_2020/9/src/salesman.cpp:56 | couple `c` is parents `2c` and `2c+1`; an odd last parent gets no partner |
| Generational.UnpairPair | old_/2019_2020/dzienne_2019_2020/9/src/salesman.cpp:56-66 | writing the couples back in order gives the first `2(n/2)` parents |
| Generational.Cross | old_/2019_2020/dzienne_2019_2020/9/src/salesman.cpp:56-66 | the crossover runs only when the probability is below the draw; otherwise the couple is copied |
| Generational.Crossed | old_/2019_2020/dzienne_2019_2020/9/src/salesman.cpp:56-66 | couple `c` is crossed at its cut exactly when its gate opens, and kept otherwise |
| Generational.Mutated | old_/2019_2020/dzienne_2019_2020/9/src/salesman.cpp:69-74 | the second child of a couple is never touched; the first changes only at the drawn position, and only when `pm < u` |
| Generational.Generation | old_/2019_2020/dzienne_2019_2020/9/src/salesman.cpp:46-75 | the next population has `2(n/2)` members: `n` for even and `n-1` for odd `n`, all within the bound |
| Generational.ShutGatesOnlySelect | old_/2019_2020/dzienne_2019_2020/9/src/salesman.cpp:56-74 | when every draw is at most its probability, the generation is the selected parents alone |
| Generational.GeneticAlgorithm | old_/2019_2020/dzienne_2019_2020/9/src/salesman.cpp:38-81 | the loop runs `count` generations for `0 <= count` up to the draws given; the trace starts at the initial population and each entry is one Generation of the one before, so the population is replaced wholesale; the result is the first fittest member of the final population, with no best kept across generations; a single specimen with `count` 0 is returned as it is |
| Island.Breed | dawniejsze/older/2020-2021/12_ga_island/generic_ga.cpp:28-32 | two tournaments, OX and two swap mutations turn tours into tours |
| Island.Offspring | dawniejsze/older/2020-2021/12_ga_island/generic_ga.cpp:26-35 | one pair of children per two members, pair `c` bred from draw `c` |
| Island.PlacePairs | dawniejsze/older/2020-2021/12_ga_island/generic_ga.cpp:24-34 | pair `c` lands at slots `2c` and `2c+1`; the slots past the pairs stay empty chromosomes |
| Island.GaIteration | dawniejsze/older/2020-2021/12_ga_island/generic_ga.cpp:18-37 | same size, pair `c` at `2c` and `2c+1`, all tours except an empty last slot for an odd size |
| Island.Deme | dawniejsze/older/2020-2021/12_ga_island/generic_ga.cpp:60-61 | deme `d` has `(d+1)N/D - dN/D` members |
| Island.Demes | dawniejsze/older/2020-2021/12_ga_island/generic_ga.cpp:58-63 | there are `D` demes, deme `d` being slice `d` |
| Island.FlattenDemes | dawniejsze/older/2020-2021/12_ga_island/generic_ga.cpp:60-61 | the slices tile the population: concatenated they are the population |
| Island.TenIntoThree | dawniejsze/older/2020-2021/12_ga_island/generic_ga.cpp:60-61 | ten members in three demes give sizes 3, 3 and 4 |
| Island.RingInverse | dawniejsze/older/2020-2021/12_ga_island/generic_ga.cpp:95-96 | deme `t` sends right to `j` exactly when `t` is `j`'s left neighbour, and the other way round |
| Island.MigrationEveryGap | dawniejsze/older/2020-2021/12_ga_island/generic_ga.cpp:64 | for a positive gap migration fires exactly when `iteration + 1` is a multiple of the gap; never for a negative gap; always for gap 1 |
| Island.BestOf | dawniejsze/older/2020-2021/12_ga_island/generic_ga.cpp:81-83 | a member of the deme at least as fit as every member, and every earlier member is strictly less fit: the first maximum, as `max_element` returns it |
| Island.Trim | dawniejsze/older/2020-2021/12_ga_island/generic_ga.cpp:71-75 | two members fewer, all taken from the deme, in ascending order of fitness |
| Island.TrimDropsLeastFit | dawniejsze/older/2020-2021/12_ga_island/generic_ga.cpp:71-75 | the two members dropped are no fitter than any member kept |
| Island.MigrateRanked | dawniejsze/older/2020-2021/12_ga_island/generic_ga.cpp:67-99 | every deme keeps its size: its trimmed members first, then the bests of its two ring neighbours in the order the push loop sends them (the lower-numbered neighbour's first); every member comes from the old demes |
| Island.ArrivalOrderCases | dawniejsze/older/2020-2021/12_ga_island/generic_ga.cpp:78-97 | inside the ring a deme receives its left neighbour's best first; at both ends of a ring of three or more the wrap puts the right neighbour's first |
| Island.SendToNeighbours | dawniejsze/older/2020-2021/12_ga_island/generic_ga.cpp:79-98 | after the loop each deme's appended tail is the bests of the demes that send to it |
| Island.AllArrived | dawniejsze/older/2020-2021/12_ga_island/generic_ga.cpp:78-99 | once all demes have sent, deme `j` ends with the bests of demes `Left(j)` and `Right(j)`, in arrival order, after its trimmed members |
| Island.ReplaceFromThrows | dawniejsze/older/2020-2021/12_ga_island/generic_ga.cpp:89-90 | the write loop throws exactly when some index lies past the end of the deme it writes into, and then `out_of_range` |
| Island.MigrateRandomAsWritten | dawniejsze/older/2020-2021/12_ga_island/generic_ga.cpp:84-92 | with the ranges as the source draws them, migration throws `out_of_range` exactly when an index escapes its deme |
| Island.AsWrittenThrows | dawniejsze/older/2020-2021/12_ga_island/generic_ga.cpp:86-90 | demes of sizes 3, 3, 4 with in-range draws make the loop throw |
| Island.FiftyIntoSix | dawniejsze/older/2020-2021/12_ga_island/generic_ga.cpp:58-63 | the program's 50 members in six demes give sizes 8, 8, 9, 8, 8, 9 |
| Island.SixDemesThrow | dawniejsze/older/2020-2021/12_ga_island/generic_ga.cpp:86-90 | on demes of sizes 8, 8, 9, 8, 8, 9 an index of 8 drawn for deme 0 over deme 5 is written into deme 1 and throws `out_of_range` |
| Island.MigrateRandom | dawniejsze/older/2020-2021/12_ga_island/generic_ga.cpp:84-92 | with each index drawn over the deme it writes into, sizes are kept, each slot holds its old member or a best, slots nobody writes are kept, and the last write is in place |
| Island.ReplaceLoop | dawniejsze/older/2020-2021/12_ga_island/generic_ga.cpp:79-98 | the write loop never throws and leaves the demes in the `Replaced` state |
| Island.WriteDeme | dawniejsze/older/2020-2021/12_ga_island/generic_ga.cpp:89-90 | one deme's two writes put its best at the drawn slots of both neighbours |
| Island.AsWrittenAgreesOnEqualDemes | dawniejsze/older/2020-2021/12_ga_island/generic_ga.cpp:86-90 | for demes of equal size the written ranges and the intended ones coincide, and the source never throws |
| IslandLoop.StartProgress | dawniejsze/older/2020-2021/12_ga_island/generic_ga.cpp:272-275 | the tracker starts at iteration 0 with a fittest member of the initial population |
| IslandLoop.NoImprovement | dawniejsze/older/2020-2021/12_ga_island/generic_ga.cpp:277-296 | the best so far changes exactly on a strict improvement, then to a member and the current iteration; the answer is false exactly when `iteration - last_improvement >= 100` |
| IslandLoop.WatchKeepsBest | dawniejsze/older/2020-2021/12_ga_island/generic_ga.cpp:282-286 | over successive calls the best so far never gets less fit and is at least as fit as every member seen |
| IslandLoop.WatchStagnant | dawniejsze/older/2020-2021/12_ga_island/generic_ga.cpp:282-295 | with no improvement the tracker is unchanged and call `i` continues exactly while fewer than 100 iterations have passed |
| IslandLoop.Continue | dawniejsze/older/2020-2021/12_ga_island/generic_ga.cpp:277-313 | `term_iterations` continues exactly below 1000; `term_no_improvement` as the window says, never losing its best, and changing its state only by recording an improvement at this iteration |
| IslandLoop.EqualDemes | dawniejsze/older/2020-2021/12_ga_island/generic_ga.cpp:60-61 | when `D` divides `N` every deme has `N/D` members |
| IslandLoop.BreedDeme | dawniejsze/older/2020-2021/12_ga_island/generic_ga.cpp:60-62 | a deme of tours breeds a deme of tours of the same size |
| IslandLoop.BreedDemes | dawniejsze/older/2020-2021/12_ga_island/generic_ga.cpp:58-63 | deme `d` of the next generation is `ga_iteration` of slice `d`, with the slice's size and tours only |
| IslandLoop.Migrate | dawniejsze/older/2020-2021/12_ga_island/generic_ga.cpp:64-100 | when due, migration in the chosen mode; otherwise the demes pass unchanged; sizes and tours are kept |
| IslandLoop.RankedTours | dawniejsze/older/2020-2021/12_ga_island/generic_ga.cpp:67-99 | ranked migration keeps deme sizes and tours |
| IslandLoop.RandomTours | dawniejsze/older/2020-2021/12_ga_island/generic_ga.cpp:84-92 | random replace succeeds, keeps deme sizes and tours |
| IslandLoop.Round | dawniejsze/older/2020-2021/12_ga_island/generic_ga.cpp:57-103 | one iteration of `ep`: breed every deme, migrate when due, flatten; the size is kept and all members are tours |
| IslandLoop.Ep | dawniejsze/older/2020-2021/12_ga_island/generic_ga.cpp:42-107 | the trace starts at the input and each round is RoundOutcome of the population before it: every deme bred, migration when due, the demes flattened; the result is the last population, of tours and of the same size; `terms` are the termination predicate's states, call `i` asked about population `i` at iteration `i`, every call but the last said to go on, and a run that ends before the draws stops because the last call said stop; `term_iterations` runs min(1000, draws) rounds; under `term_no_improvement` the calls are Watch over the trace, and from an improvement at iteration 0 or later at least 100 rounds run |
| IslandLoop.AskedWatch | dawniejsze/older/2020-2021/12_ga_island/generic_ga.cpp:277-296 | a run of `term_no_improvement` calls, each but the last saying go on, is what Watch computes over the populations asked about: the same answers and the same final state |
| LocalSearch.Move | dawniejsze/older/2019_2020/dzienne_2019_2020/5/salesman.cpp:119-123 | only gene `j` changes, one step up or down its cycle `[0, len(s)-j)`, and the bound is kept |
| LocalSearch.MoveBack | dawniejsze/older/2019_2020/dzienne_2019_2020/5/salesman.cpp:119-123 | a step down undoes a step up and the other way round |
| LocalSearch.MoveChanges | dawniejsze/older/2019_2020/dzienne_2019_2020/5/salesman.cpp:117-124 | every step on a gene other than the last changes the solution |
| LocalSearch.Neighbours | dawniejsze/older/2019_2020/dzienne_2019_2020/5/salesman.cpp:113-127 | `2(len(s)-1)` neighbours, each one step on one gene away |
| LocalSearch.NeighboursFromOrder | dawniejsze/older/2019_2020/dzienne_2019_2020/5/salesman.cpp:117-125 | the neighbours come as (gene `j` up, gene `j` down) for `j = 0 .. len(s)-2` |
| LocalSearch.NeighboursFacts | dawniejsze/older/2019_2020/dzienne_2019_2020/5/salesman.cpp:113-127 | every neighbour has the same length, keeps the bound and differs from its source |
| LocalSearch.AltEquals | dawniejsze/older/2019_2020/dzienne_2019_2020/5/salesman.cpp:156-163 | true exactly when `a` is a prefix of `b`; `at` throws exactly when `b` is a proper prefix of `a` |
| LocalSearch.AltEqualsSameLength | dawniejsze/older/2019_2020/dzienne_2019_2020/5/salesman.cpp:156-163 | on equal lengths the comparison is true exactly for equal sequences, and never throws |
| LocalSearch.TabuMatchIsMembership | dawniejsze/older/2019_2020/dzienne_2019_2020/5/salesman.cpp:178-185 | for entries of one length, the filter's test "equal to some entry" is list membership |
| LocalSearch.Scan | dawniejsze/older/2019_2020/dzienne_2019_2020/5/salesman.cpp:140-144 | the scan ends at a least goal, replacing its start only by the first strictly better one |
| LocalSearch.BestNeighbour | dawniejsze/older/2019_2020/dzienne_2019_2020/5/salesman.cpp:139-144 | a neighbour of least goal: the last one when it ties the minimum, otherwise the first with the least goal |
| LocalSearch.HillclimbDeterministic | dawniejsze/older/2019_2020/dzienne_2019_2020/5/salesman.cpp:132-155 | each step of the trace moves to BestNeighbour of the current solution and is strictly better; at most `iterations` steps; an early stop is at a local minimum; the bound is kept |
| LocalSearch.DescentStrict | dawniejsze/older/2019_2020/dzienne_2019_2020/5/salesman.cpp:145-146 | along the deterministic climb the goal strictly decreases, so no solution is visited twice |
| LocalSearch.Hillclimb | dawniejsze/older/2019_2020/dzienne_2019_2020/5/salesman.cpp:98-111 | `iterations` proposals, the i-th being the neighbour function at the current solution and draw i; each is taken exactly when strictly better, so the goal never increases along the trace and the result is no worse than any proposal |
| LocalSearch.ImprovingMonotone | dawniejsze/older/2019_2020/dzienne_2019_2020/5/salesman.cpp:103-108 | a later solution of the trace is never worse than an earlier one |
| LocalSearch.TabuCapacity | dawniejsze/older/2019_2020/dzienne_2019_2020/5/salesman.cpp:209-210 | for a non-negative `max_tabu_size`, the largest list size after an iteration: `max_tabu_size - 1`, and at least 1 |
| LocalSearch.PushNewest | dawniejsze/older/2019_2020/dzienne_2019_2020/5/salesman.cpp:202 | pushing a non-tabu candidate keeps the entries pairwise distinct |
| LocalSearch.DropOldest | dawniejsze/older/2019_2020/dzienne_2019_2020/5/salesman.cpp:209-210 | dropping the front keeps the entries pairwise distinct |
| LocalSearch.TabuStep | dawniejsze/older/2019_2020/dzienne_2019_2020/5/salesman.cpp:176-211 | one iteration keeps a tabu list of distinct bounded entries, within the capacity for a non-negative `max_tabu_size` |
| LocalSearch.TabuStepOutcome | dawniejsze/older/2019_2020/dzienne_2019_2020/5/salesman.cpp:176-211 | a stop exactly for one entry and no candidate; no candidate otherwise drops the oldest entry; with candidates the best one (BestNeighbour of the non-tabu neighbours) is pushed, the oldest evicted first-in first-out once the size reaches `max_tabu_size` (never for a negative one, which converts to the largest `size_t`), and the global best updated only on strict improvement |
| LocalSearch.TabuSearch | dawniejsze/older/2019_2020/dzienne_2019_2020/5/salesman.cpp:167-214 | the trace starts from the list holding only the start and each state is TabuStep of the one before; `visited` is everything pushed; the list has distinct entries, within the capacity for a non-negative `max_tabu_size`; an early stop means one entry and no non-tabu neighbour; the result is the first least-goal solution visited; a one-gene start is returned at once, after no iteration |
| LocalSearch.TabuNeverStuck | dawniejsze/older/2019_2020/dzienne_2019_2020/5/salesman.cpp:187-192 | for two genes or more, a single-entry list always leaves a non-tabu neighbour, so the early return is never taken from such a start |
| LocalSearch.TabuOneGene | dawniejsze/older/2019_2020/dzienne_2019_2020/5/salesman.cpp:187-192 | a one-gene solution has no neighbour (the loop bound `size() - 1` of `generate_neighbours` is 0), so the first iteration from the list holding only it stops and changes nothing: the early return is taken |
| LocalSearch.BruteForce | dawniejsze/older/2019_2020/dzienne_2019_2020/5/salesman.cpp:80-93 | the result is the first solution of the successor cycle with the least goal, no worse than the start or any successor |

## Left out

- JSON stream operators, HTML output, `main`, `process_arguments`, timing and all printing (`print_stats`, the output inside the termination predicates and the warnings' text): input/output only.
- The random streams (`random_device`, `mt19937`, `default_random_engine`): every draw is an argument, with its range as a precondition.
- Floating point: `sqrt` in the goal, the fitness `K/(1+goal)`, `standard_deviation`, `term_stddev` and `stod`. The goal and the fitness are abstract functions to `real`; the probabilities are `real`s.
- `#pragma omp parallel for` in `ga_iteration`: the loop is modelled sequentially, in draw order.
- `next_solution`, `alternative_solution_t::of`, `get_solution`, `generate_random_neighbour` and the headers holding them: their definitions are not part of this model. Brute force takes the successor as a parameter, randomized hill climbing the neighbour, and the local searches work on the genes with the goal of the decoded solution as a function of them. Simulated annealing lives only in those headers.
- `migration_rate`: the source reads it but never uses it in `ep`.
- `term_stddev`: floating point only.
- Seqs.SortBy: one stable insertion sort stands for the unstable `std::sort`; among members of equal fitness the order may differ from a real run. Properties are stated only up to that order (ranked trimming, rank order).
- IslandLoop.Ep: only for configurations where `D` divides `N` into demes of one even size (at least 2 for random replace, at least 4 for ranked migration). An odd deme puts the empty chromosome that `ga_iteration` leaves in its last slot into the population, and the goal then reads past its end. A `migration_gap` of 0, which `main` accepts from the command line, is excluded as well: the gate `iteration % migration_gap` then divides by zero (undefined behaviour). The loop runs at most one round per draw record given, so a run longer than the draws supplied is not modelled.
- AltOperators.MutationDescending: the lambda takes its specimen as `auto &a`, so `decltype(a)` is a reference type. `new_a` therefore aliases the caller's specimen, and the gene write changes the caller's object in place; the return value refers to that same object. AltOperators.ApplyMutation's wrapper passes its argument by non-const reference and returns a copy of it. Both are modelled as pure functions: the result is the specimen after the call, which in the source is also what the caller's object has become. The aliasing itself is not modelled.
- Generational.GeneticAlgorithm: runs at most one generation per draw record given; a negative count runs every record given (see Config.CountdownNegative).
- Config.CountdownNegative: the counter is modelled as an unbounded integer. In the source it is an `int`; from a negative start the decrement reaches INT_MIN after about 2^31 generations, and the next decrement is a signed overflow (undefined behaviour). The model does not cover runs that long.
- Generational.GeneticAlgorithm: requires at least two specimens, or exactly one with `count` 0, which is returned without any generation. With no specimens the selection loop (9/src/salesman.cpp:52) runs zero times, and the final `*max_element` (lines 78-80) then dereferences the end of the empty population (undefined behaviour). With one specimen the first generation leaves no children. So with `count` 1 that final `*max_element` dereferences the end of an empty population, and from `count` 2 on the second generation's selection draws from an empty fitness vector. The population size itself (`population_size`, default 10) is the length of the initial population given.
- LocalSearch.HillclimbDeterministic: requires at least two genes; for fewer the unsigned `size() - 1` and `back()` of an empty list are undefined behaviour.
- LocalSearch.TabuSearch: requires at least one gene; for none the unsigned `size() - 1` in `generate_neighbours` wraps. A one-gene start is modelled: it has no neighbour, so the first iteration takes the early return and the start is the result (LocalSearch.TabuOneGene).
- LocalSearch.Neighbours: requires at least one gene (the unsigned `size() - 1` wraps for none).
- LocalSearch.Move: genes outside their positional bound are not given the C++ unsigned-conversion result for negative values; the cyclic step is stated only for genes within the bound, and every solution the searches handle is within it.
- LocalSearch.Hillclimb: the neighbour function is an abstract parameter, so which neighbour `generate_random_neighbour` proposes is not modelled; the contract states only that the i-th proposal is that function at the current solution and draw i.
- Selection.Rank: requires a non-empty vector; on an empty one the source indexes an empty vector.
- Selection.Select: states only that the index is in range; the distribution of each operator is stated by Selection.RouletteInterval and Selection.RankSelectsByRank.
- Selection.SelectionFactory: an unknown name falls back to the tournament without any warning; unlike the mutation and crossover factories, this one prints nothing.
- Island.Deme: states the slice's length; that the slices tile the population is Island.FlattenDemes.
- `rank_selection` and `roulette_selection` draw `u` from `[0, sum)` in floating point; the model takes `u` as a `real` and does not model rounding of the running sum.

## Findings

| source | as written | input that shows it | evidently intended | confidence | as-written member | corrected member |
|---|---|---|---|---|---|---|
| dawniejsze/older/2020-2021/12_ga_island/generic_ga.cpp:86-90 | random replace writes into the right neighbour at an index drawn by `left_gen`, which is sized by the left neighbour, and into the left neighbour at an index drawn by `right_gen`, sized by the right neighbour | three demes of sizes 3, 3, 4 (ten members, as Island.TenIntoThree shows): deme 0 draws index 3 with `left_gen`, sized by its left neighbour deme 2 (4 members), and writes `.at(3)` into its right neighbour deme 1 (3 members), which throws `out_of_range` | each index drawn over the deme it is written into | not executed; reachable with the arguments `6 1 1 replace`: the 50 members split into 8, 8, 9, 8, 8, 9 (Island.FiftyIntoSix), and at iteration 0 deme 0 may draw 8 over deme 5 and write it into deme 1, which throws (Island.SixDemesThrow) before any odd deme's empty chromosome is evaluated; the default configuration (50 members, 5 demes) forms equal demes and never throws | Island.MigrateRandomAsWritten (counterexample Island.AsWrittenThrows) | Island.MigrateRandom (agreement on equal demes: Island.AsWrittenAgreesOnEqualDemes) |
