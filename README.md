# Genetic algorithm core, modelled in Dafny

This project models the core of a small genetic algorithm that maximises a one-variable objective
over a real interval `[v_min, v_max]`:

- `Individuo` is a candidate solution. It holds a chromosome: an `n_bits`-long string of `'0'`/`'1'`,
  least significant bit first. It also holds the chromosome's integer value `_valor`. The real value
  is read and written through an affine map between `[0, 2^n_bits - 1]` and `[l_inf, l_sup]`.
- `AlgoritmoGenetico` runs `n_geracoes` generations over a population of `n_pop` individuals:
  - fitness-weighted selection of two parents;
  - multi-point crossover with alternating segments;
  - single-bit mutation;
  - filling a new population two children at a time and trimming it back to `n_pop`;
  - keeping a best-individual record and the per-generation mean fitness.

Modules, one concept each:

- `Outcomes` (`outcomes.dfy`): the error results that stand for the source's exceptions and assertion
  failures.
- `Codec` (`codec.dfy`): `_int_to_bits` and `_bits_to_int`, with both round trips proved.
- `Individuals` (`individual.dfy`): the class `Individual`. Its fields `chromosome` and `value` are
  updated in place by the two setters. Its invariant `Valid()` says the chromosome encodes the
  integer part of `value`.
- `Operators` (`operators.dfy`): what crossover and mutation do to chromosomes, as functions and
  lemmas. Crossover is the segment rule `Spliced`; mutation is the bit `Flip`.
- `Sequences` (`sequences.dfy`): the trim loop, modelled as repeated `list.pop(i)`, and the order it
  keeps.
- `Records` (`records.dfy`): the best record, `max` and `average`. `BestAfter` folds the record step
  over a run.
- `Engine` (`engine.dfy`): the selection redraw loop, the splice loop, and the class
  `GeneticAlgorithm` with its population and record fields. The class holds the generation loop of
  `executa`.

Every random draw is a parameter of the operation that consumes it, with the range the Python call
can return:

- `random()`;
- `randint`;
- the positions drawn by `choices`;
- the sorted `sample`;
- `uniform`.

Python floats are modelled as exact `real`s. The objective `_objetivo` (`v + |sin(32 v)|`) is a
parameter `f`.

The model follows the code throughout, with one exception: the generation loop uses a corrected
redraw test in `_selecao`, and the code as written is modelled beside it (see Findings). Behaviour
of the code worth knowing:

- The value map is increasing: integer `0` gives `l_inf` and `2^n_bits - 1` gives `l_sup`
  (`individuo.py:74-78`).
- The `valor` setter stores the untruncated quotient. Only the chromosome uses its integer part, so
  reading the value back after setting it returns it exactly (`Individual.SetValue`).
- Cut loci are drawn from `range(1, n_bits - 2)`, which is `1 .. n_bits - 3`, so crossover needs
  `k <= n_bits - 3`.
- `_selecao` redraws when the two parents compare equal under the dataclass `==`, which compares
  fields, not identity. See Findings.
- With all-zero weights, `random.choices` raises an error; the code has no fallback.

## Model

| member | source | states |
|---|---|---|
| Codec.IntToBits | Python/algoritmogenetico/individuo.py:101-108 | the result has exactly `n` characters, all bits, and position `i` is `'1'` exactly when bit `i` of `x` is set |
| Codec.BitsToInt | Python/algoritmogenetico/individuo.py:94-99 | the sum of `2^i` over the `'1'` positions is below `2^len` |
| Codec.IntToBitsCons | Python/algoritmogenetico/individuo.py:101-108 | encoding `n` bits is the lowest bit of `x` followed by the encoding of `x / 2` in `n - 1` bits |
| Codec.BitsToIntCons | Python/algoritmogenetico/individuo.py:94-99 | decoding is the first digit plus twice the decoding of the rest |
| Codec.DecodeEncode | Python/algoritmogenetico/individuo.py:94-108 | decoding the `n`-bit encoding of `x` gives `x mod 2^n`, and `x` itself whenever `x < 2^n` |
| Codec.EncodeDecode | Python/algoritmogenetico/individuo.py:94-108 | encoding the decoded value of a bit string, at its own length, gives the string back |
| Codec.OnesValue | Python/algoritmogenetico/individuo.py:35-36 | no `n`-bit chromosome decodes above `2^n - 1`, and the all-ones chromosome decodes to it: `_vmax` is the largest value `n_bits` bits can hold |
| Codec.BitsToIntInjective | Python/algoritmogenetico/individuo.py:94-99 | two bit strings of the same length with the same value are equal |
| Individuals.Individual.constructor | Python/algoritmogenetico/individuo.py:34-50 | a non-empty chromosome is kept and `_valor` is its decoding; with none, `_valor` is the drawn integer and the chromosome its encoding; the invariant holds |
| Individuals.Individual.Create | Python/algoritmogenetico/individuo.py:34-50 | fails with a length error exactly when a non-empty chromosome is not `n_bits` long; otherwise a new individual as above |
| Individuals.Individual.SetChromosome | Python/algoritmogenetico/individuo.py:57-68 | rejects exactly the wrong lengths and leaves the state alone then; otherwise stores the chromosome and its decoded value; the invariant is kept |
| Individuals.Individual.Value | Python/algoritmogenetico/individuo.py:70-78 | `_valor = 0` reads as `l_inf`, `_valor = _vmax` as `l_sup`, and every consistent individual reads inside `[l_inf, l_sup]` |
| Individuals.Individual.SetValue | Python/algoritmogenetico/individuo.py:80-92 | fails out of bounds and on equal bounds and then changes nothing; otherwise stores the inverse map of `v`, sets the chromosome to the encoding of its integer part, keeps the invariant, and the getter then returns `v` |
| Individuals.AffineInverseInRange | Python/algoritmogenetico/individuo.py:84-89 | the inverse map sends every in-bounds value into `[0, _vmax]` |
| Individuals.AffineForwardInRange | Python/algoritmogenetico/individuo.py:74-78 | the getter's map sends `[0, _vmax]` into `[l_inf, l_sup]` whenever `l_inf <= l_sup` |
| Individuals.AffineRoundTrip | Python/algoritmogenetico/individuo.py:70-92 | the forward map undoes the inverse map |
| Operators.BoundsPartition | Python/algoritmogenetico/algoritmogenetico.py:149-159 | `[0] + loci + [n_bits]` of a sorted sample of `k` interior loci is a strictly increasing partition of `[0, n_bits)` with `k + 2` points |
| Operators.SliceOf | Python/algoritmogenetico/algoritmogenetico.py:159-162 | every position lies in exactly the slice the function names |
| Operators.SplicedKeepsColumns | Python/algoritmogenetico/algoritmogenetico.py:162-169 | at each position the children hold the parents' two bits, kept or swapped, so the column's multiset is unchanged |
| Operators.SpliceTwiceRestores | Python/algoritmogenetico/algoritmogenetico.py:162-169 | splicing the children again with the same loci gives back the parents |
| Operators.SplicedUnique | Python/algoritmogenetico/algoritmogenetico.py:162-169 | the segment rule determines both children |
| Operators.SplicedIsSpliceChild | Python/algoritmogenetico/algoritmogenetico.py:158-169 | the segment rule holds of a pair of children exactly when they are the two spliced children, `cr_f1` built from `cr1` in the even slices and `cr_f2` from `cr2` |
| Operators.Flip | Python/algoritmogenetico/algoritmogenetico.py:186-194 | the bit at the locus changes, every other position and the length stay, and a bit string stays a bit string |
| Operators.FlipTwice | Python/algoritmogenetico/algoritmogenetico.py:186-194 | flipping the same locus twice restores the chromosome |
| Sequences.RemoveAt | Python/algoritmogenetico/algoritmogenetico.py:271 | `list.pop(i)`: one element shorter, the elements before `i` stay and the rest shift down by one |
| Sequences.Removed | Python/algoritmogenetico/algoritmogenetico.py:270-271 | each pop removes exactly one element |
| Sequences.RemovedFollowsPositions | Python/algoritmogenetico/algoritmogenetico.py:270-271 | the pops act on a sequence and on its source positions alike |
| Sequences.RemovedIncreasing | Python/algoritmogenetico/algoritmogenetico.py:270-271 | popping from increasing positions leaves increasing positions |
| Sequences.RemovedKeepsOrder | Python/algoritmogenetico/algoritmogenetico.py:270-271 | the survivors are a subsequence of the original, in the original order |
| Sequences.Trim | Python/algoritmogenetico/algoritmogenetico.py:269-271 | the loop leaves `min(len, n_pop)` elements, equal to the pops applied in order, which are a subsequence of the buffer |
| Records.Max | Python/algoritmogenetico/algoritmogenetico.py:223 | `max` is an element and an upper bound |
| Records.SumWithin | Python/algoritmogenetico/algoritmogenetico.py:231 | a sum of terms in `[lo, hi]` lies between `len * lo` and `len * hi` |
| Records.MeanWithin | Python/algoritmogenetico/algoritmogenetico.py:231 | the mean fitness lies between any lower and upper bound of the generation's fitness |
| Records.UpdateBest | Python/algoritmogenetico/algoritmogenetico.py:223-228 | the record never decreases and bounds the generation's maximum; it changes exactly when the maximum is strictly greater, and then holds that maximum and this generation |
| Records.BestAfterIsFirstMaximum | Python/algoritmogenetico/algoritmogenetico.py:218-228 | after a run the record is the largest of `v_min` and every generation's maximum, found at the first generation that reached it, or at 0 when none beat `v_min` |
| Records.BestNeverDecreases | Python/algoritmogenetico/algoritmogenetico.py:218-228 | the record's fitness after any prefix of the run is at most its final fitness |
| Engine.SelectAsWritten | Python/algoritmogenetico/algoritmogenetico.py:120-128 | with the dataclass `==`: returns the first drawn pair whose two individuals differ in some field, or nothing exactly when every draw collides |
| Engine.SelectionStall | Python/algoritmogenetico/algoritmogenetico.py:120-128 | two separate individuals with the same chromosome make every draw collide under `==`, while the identity test accepts a draw |
| Engine.FirstDistinctIsFirst | Python/algoritmogenetico/algoritmogenetico.py:120-128 | scanning the draws from the start stops at a draw naming two distinct members with only colliding draws before it, and runs off the end exactly when every draw collides |
| Engine.FirstDistinctFinds | Python/algoritmogenetico/algoritmogenetico.py:120-128 | a draw of two distinct members with only colliding draws before it is where the scan stops |
| Engine.Select | Python/algoritmogenetico/algoritmogenetico.py:120-128 | returns the two members named by the first draw of two distinct members, or nothing exactly when every draw names one member twice |
| Engine.Splice | Python/algoritmogenetico/algoritmogenetico.py:158-169 | the slice loop builds children that satisfy the alternating segment rule |
| Engine.GeneticAlgorithm.constructor | Python/algoritmogenetico/algoritmogenetico.py:66-83 | a new engine holds its hyperparameters, an empty population, no best record and empty series |
| Engine.GeneticAlgorithm.ClearRecords | Python/algoritmogenetico/algoritmogenetico.py:104-113 | all four series are emptied and the record is `(v_min, 0)`; the population is untouched |
| Engine.GeneticAlgorithm.NewIndividual | Python/algoritmogenetico/algoritmogenetico.py:94-102 | fails exactly on a non-empty chromosome of the wrong length; otherwise a new consistent individual with the engine's width and bounds, holding the given chromosome with `_valor` its decoding, or with none given `_valor` the drawn integer and the chromosome its encoding |
| Engine.GeneticAlgorithm.Crossover | Python/algoritmogenetico/algoritmogenetico.py:130-175 | fails exactly when crossover happens and `k` exceeds the `n_bits - 3` loci; otherwise two new, distinct, consistent children that copy the parents or follow the segment rule, each with `_valor` its chromosome's decoding |
| Engine.GeneticAlgorithm.MutateOne | Python/algoritmogenetico/algoritmogenetico.py:182-194 | below the rate the chromosome's bit at the locus flips and `_valor` becomes the new chromosome's decoding; otherwise chromosome and `_valor` are unchanged; the individual stays consistent |
| Engine.GeneticAlgorithm.Mutate | Python/algoritmogenetico/algoritmogenetico.py:177-194 | every individual below its coin has its drawn bit flipped and `_valor` re-decoded, the others keep chromosome and `_valor`, and all stay consistent |
| Engine.GeneticAlgorithm.MutatePair | Python/algoritmogenetico/algoritmogenetico.py:177-194 | each of the two children's chromosomes becomes its old chromosome mutated under its own coin and locus, and `_valor` follows |
| Engine.GeneticAlgorithm.OffspringSteps | Python/algoritmogenetico/algoritmogenetico.py:130-194 | the offspring of one pass are the crossed chromosomes (copies, or the two spliced children), each then mutated under its own draw |
| Engine.GeneticAlgorithm.CrossAndMutate | Python/algoritmogenetico/algoritmogenetico.py:261-264 | fails exactly when crossover happens with a sample larger than the loci; otherwise two new, distinct, consistent children whose chromosomes are the offspring of the parents' chromosomes under the draws |
| Engine.GeneticAlgorithm.BredFromPick | Python/algoritmogenetico/algoritmogenetico.py:256-267 | children carrying the offspring of the parents named by the first draw of two distinct members are what the pass breeds |
| Engine.GeneticAlgorithm.BreedPair | Python/algoritmogenetico/algoritmogenetico.py:256-267 | one pass fails exactly when every draw names one member twice or the crossover's sample is larger than the `n_bits - 3` loci; otherwise it yields two new, distinct, consistent children carrying the offspring of the parents named by the first draw of two distinct members |
| Engine.GeneticAlgorithm.BredFirstSnoc | Python/algoritmogenetico/algoritmogenetico.py:256-267 | one more pass extends what was bred by its pair, bred from the next draw set |
| Engine.GeneticAlgorithm.Breed | Python/algoritmogenetico/algoritmogenetico.py:252-267 | the fill loop fails exactly when one of its passes fails on its draw set; otherwise it yields `2 * ceil(n_pop / 2)` new, pairwise distinct, consistent individuals, so `n_pop` or `n_pop + 1`, each with `_valor` its chromosome's decoding, where children `2t` and `2t + 1` are bred from the population with draw set `t` |
| Engine.GeneticAlgorithm.BreedStep | Python/algoritmogenetico/algoritmogenetico.py:256-267 | one pass fails exactly when its draw set fails; otherwise it appends two new individuals, bred with that draw set and different from everything bred so far, each with `_valor` its chromosome's decoding |
| Engine.GeneticAlgorithm.RecordGeneration | Python/algoritmogenetico/algoritmogenetico.py:222-231 | the record takes the record step, the mean is appended, and nothing else changes |
| Engine.GeneticAlgorithm.Populate | Python/algoritmogenetico/algoritmogenetico.py:210-215 | builds `n_pop` new, distinct, consistent individuals; succeeds exactly when every starting value is in bounds and the bounds differ, and then individual `j` reads back starting value `j` |
| Engine.GeneticAlgorithm.Refill | Python/algoritmogenetico/algoritmogenetico.py:252-271 | fails exactly when a pass of the fill loop fails; otherwise the fill loop breeds from the population pair by pair, and the trim loop's pops on what it bred leave exactly `n_pop` distinct, consistent individuals, in their bred order, each with `_valor` its chromosome's decoding |
| Engine.GeneticAlgorithm.Generation | Python/algoritmogenetico/algoritmogenetico.py:218-274 | succeeds exactly when the population is non-empty, `n_bits >= 1` and no pass of the fill loop fails; zero bits and an empty population fail with their own errors; the fitness row is `f` of each member's value in population order; it takes the record step and appends the mean; the new population is what the trim loop leaves of the individuals bred from the old one: `n_pop` distinct, consistent individuals whose `_valor` is their chromosome's decoding |
| Engine.GeneticAlgorithm.Advance | Python/algoritmogenetico/algoritmogenetico.py:252-274 | fails exactly when a pass of the fill loop fails; otherwise the population is replaced by what the fill and trim loops make of it, `n_pop` distinct, consistent individuals whose `_valor` is their chromosome's decoding; the records are untouched |
| Engine.GeneticAlgorithm.FillFailsOnDraws | Python/algoritmogenetico/algoritmogenetico.py:120-128 | in a population of distinct individuals a draw names one member twice exactly when its two positions are equal, so the fill loop fails exactly when some pass's draws consist only of equal-position picks or ask for more than `n_bits - 3` loci |
| Engine.GeneticAlgorithm.GenerationFailsOnDraws | Python/algoritmogenetico/algoritmogenetico.py:252-267 | a generation started from distinct individuals fails its fill loop exactly when its draws fail |
| Engine.GeneticAlgorithm.RanSnoc | Python/algoritmogenetico/algoritmogenetico.py:218-274 | a generation that got through, with its record step and mean, extends the run by one generation and keeps the population distinct and decoded |
| Engine.GeneticAlgorithm.EvolutionSnoc | Python/algoritmogenetico/algoritmogenetico.py:218-274 | one more generation extends a run by the population it left, its fitness row and what it bred |
| Engine.GeneticAlgorithm.RecordsOfSnoc | Python/algoritmogenetico/algoritmogenetico.py:222-231 | the record step and the appended mean of one more row keep the record equal to the fold over all rows and the means equal to each row's mean |
| Engine.GeneticAlgorithm.RunGeneration | Python/algoritmogenetico/algoritmogenetico.py:218-274 | one pass of the generation loop succeeds exactly when the population is non-empty, `n_bits >= 1` and no pick set of its draws has only equal positions and no crossover draw asks for more than `n_bits - 3` loci; it then extends the run so far by one generation |
| Engine.GeneticAlgorithm.Run | Python/algoritmogenetico/algoritmogenetico.py:198-274 | the run succeeds exactly when every starting value is in `[v_min, v_max]`, `v_min < v_max` when there is a population, a run with generations has a population and `n_bits >= 1`, and no generation's draws fail as in `RunGeneration` (`RunSucceeds`); a successful run leaves `n_pop` consistent individuals, one mean per generation, the record equal to the fold of the record step (see `Records.BestAfterIsFirstMaximum`), and the plot-only series empty; each generation's fitness row is that of the population it started from, and the population it leaves is the trim of what it bred from that one; the first row is `f` of the starting values |

## Findings

| source | as written | input that shows it | evidently intended | confidence | as-written member | corrected member |
|---|---|---|---|---|---|---|
| Python/algoritmogenetico/algoritmogenetico.py:126 | `while i[0] == i[1]` redraws whenever the two parents compare equal as dataclasses, meaning the same `n_bits`, bounds, chromosome and `_valor` | a population whose members all have the same chromosome and `_valor`, such as two separate individuals with `n_bits = 2`, bounds `[0, 1]` and chromosome `"10"`: every pair of draws collides, so the loop never ends. A converged population reaches this state | redraw only when the same individual is drawn twice, so any two distinct members end the loop | not executed | Engine.SelectAsWritten, Engine.SelectionStall | Engine.Select |

The generation loop (`Engine.GeneticAlgorithm.BreedPair`, used by `Breed` and `Run`) uses the corrected `Select`.

## Left out

- Plotting: the `plot=True` branch of `executa`, `Visualizador`, the `apt_maxima`, `apt_minima` and `apt_best` series, and the image folder. `Run` models `executa(plot=False)`, which leaves those series empty.
- `executa_n`, the parameter sweeps, `metricas`, `limites_varredura` and the program entry point are not part of this model.
- `_objetivo` is a parameter `f`: `sin` and `pi` are not expressible over exact reals. For the same reason the starting values `uniform(0, pi/4)` are parameters, and `Run` checks them against the bounds.
- Floating-point rounding: all arithmetic is on exact reals.
- The probability distributions of `random`, `randint`, `sample` and `uniform`: each draw is a parameter restricted to the range the call returns.
- `random.choices` with fitness weights: each draw is a pair of population positions. The picks may be any in-range positions, a superset of what the weighted draw can return. The error `choices` raises on weights that do not sum to a positive number is not modelled.
- Engine.GeneticAlgorithm.BreedPair: selects with the corrected identity redraw (`Engine.Select`), not the dataclass `==` the code uses (`Engine.SelectAsWritten`); see Findings.
- Engine.Select: an endless run of colliding draws cannot be a finite parameter, so it is modelled as the supplied draws running out (`DrawsExhausted`).
- Individuals.Individual.SetChromosome: requires a string of `'0'`/`'1'`. Python also accepts other digit strings of the right length and decodes them with `int(bit)`; no caller passes one.
- Individuals.Individual.constructor: requires the chromosome's length check to have passed, and a string of `'0'`/`'1'` as `SetChromosome` does. `Individual.Create` models the failing `assert`.
- Individuals.Individual.Create: requires a string of `'0'`/`'1'`, as `SetChromosome` does.
- Engine.GeneticAlgorithm.NewIndividual: requires a string of `'0'`/`'1'`, as `SetChromosome` does; its callers pass the empty string or a spliced parent chromosome.
- Engine.GeneticAlgorithm.Crossover: requires a `k` draw in `[1, floor(sqrt(n_bits))]`, which excludes `n_bits = 0` when crossover happens (`randint(1, 0)` raises). `Run` fails on zero bits before any crossover.
- Engine.GeneticAlgorithm.Mutate: requires the individuals to be distinct objects. Its only caller passes the two new children of one crossover.
- Partial state after an exception: a failed run returns an error, and the model states nothing about the fields it leaves behind.
- `Individuo.__repr__` and the other generated dataclass methods, other than `==` (`Individual.SameFields`).
