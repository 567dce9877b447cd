# metmap core, modelled in Dafny

metmap designs synthetic DNA "cassettes" that hold many methyltransferase recognition
motifs. A motif may contain IUPAC ambiguity codes (`R`, `Y`, … `N`). The program works in
four stages:

1. It expands motifs into concrete variants. The expansion is exhaustive in
   `deambigulate_all` and random in `deambigulate_random`.
2. It applies a copy-count rule per motif (`generate_parts_for_cassette`). Rule "1" takes
   every variant `copy_rule1` times. Rule "2" takes `copy_rule2` variants in total, spread
   evenly or drawn without duplicates by `pick_n_random_without_duplicates`.
3. It shuffles the parts until no two neighbours are equal (`shuffle_motifs`).
4. It joins each arrangement into one string, with a random linker of `how_many_Ns` bases in
   front of every motif (`do_it_all`).

The model has these modules, one per file:

| module | file | what it holds |
|---|---|---|
| `Outcome`, `SeqUtil` | `common.dfy` | errors and results; sequence helpers |
| `Iupac` | `iupac.dfy` | the `dnc` table and character helpers |
| `Variants` | `variants.dfy` | variant counting and exhaustive expansion |
| `RandomVariant` | `random_variant.dfy` | random expansion |
| `Sampling` | `sampling.dfy` | distinct random picks |
| `Composer` | `composer.dfy` | the copy-count rules |
| `Arrangement` | `arrangement.dfy` | `shuffle_motifs` |
| `Assembly` | `assembly.dfy` | the join loop and `do_it_all` |

Randomness enters as explicit oracle parameters, and every property holds for every oracle:

- `roll(i)` chooses the base at position `i` as `options[roll(i) % len(options)]`.
- `random.shuffle` is CPython's Fisher-Yates. For `i` from `len - 1` down to 1 it swaps with
  `j = roll(i) % (i + 1)`.
- The two loops that retry without bound take a finite list of draws:
  - the rejection loop of `pick_n_random_without_duplicates`;
  - the loop of `do_it_all` that collects distinct arrangements.

  Running out of draws is reported as the error `OutOfDraws`.

Python sets are modelled as duplicate-free sequences in first-insertion order. Exceptions
become `Failure` results carrying the same error: `ValueError(requested, available)` and
`KeyError(symbol)`.

Three behaviours of the code are worth knowing, and the model keeps each of them:

- `deambigulate_random` expands `N` into a random base. Line 38 keeps a symbol unchanged only
  when it is a member of `dnc['N']`, that is one of the four concrete bases. `N` is not one
  of them, so it goes through `choice(dnc['N'])`.
- A failed repair in `shuffle_motifs` raises no error. The loop starts over from the list as
  it stands after the pops at line 119 and the partial placements, so the elements that
  could not be placed are dropped: `["AC", "AC"]` comes back as `["AC"]`. A single failed
  repair can drop several elements: `["A", "A", "A", "A"]` is left as `["A"]`.
  `Arrangement.Repair` shows that a failed attempt always shortens the list. So each failed
  repair loses at least one element, which is why the loop ends
  (`Arrangement.ShuffleMotifs`).
- `calculate_number_of_possible_variants` matches codes case-sensitively, but
  `deambigulate_all` and `deambigulate_random` upper-case the input first. For lower-case
  motifs the count and the expansion therefore disagree. The model keeps both behaviours,
  and states the count/expansion properties for upper-case input.

## Model

| member | source | states |
|---|---|---|
| Iupac.DncWellFormed | metmap/metmap.py:5-17 | every code stands for 2 to 4 distinct concrete bases, no code is a base or changes under upper-casing, and the bases are exactly `dnc['N']` |
| Iupac.OptionsFacts | metmap/metmap.py:5-17 | the options of a position are distinct; a code has at least two, all concrete bases |
| Variants.NumberOfPossibleVariants | metmap/metmap.py:20-29 | the variant count is at least 1 |
| Variants.CountIsOneIffNoCode | metmap/metmap.py:26-28 | the count is 1 if and only if no symbol is a (case-sensitive) key of `dnc` |
| Variants.ProductCount | metmap/metmap.py:20-29 | the count equals the number of readings in the reference Cartesian product |
| Variants.ProductMembers | metmap/metmap.py:62-69 | a string is in the reference product iff it is a reading of the input: same length, each code replaced by one of its bases |
| Variants.ProductDistinct | metmap/metmap.py:62-69 | the reference product lists no reading twice |
| Variants.DeambigulateAllFrom | metmap/metmap.py:55-69 | from `start_pos`, the result is non-empty; every result keeps the prefix before `start_pos` and expands each later position within its upper-cased code |
| Variants.ExpandAt | metmap/metmap.py:64-68 | the loop over a code's bases yields strings with one of those bases at the position, the prefix unchanged and the rest expanded |
| Variants.DeambigulateAll | metmap/metmap.py:55-69 | non-empty; every result has the input's length and each position within its upper-cased options |
| Variants.DeambigulateAllOrder | metmap/metmap.py:62-69 | for upper-case input, the list is exactly the reference product, with the leftmost code varying slowest and bases in table order |
| Variants.DeambigulateAllSpec | metmap/metmap.py:55-69 | for upper-case input, the list has exactly count entries, all distinct, and holds exactly the readings of the input |
| RandomVariant.RandomSymbolFacts | metmap/metmap.py:38 | one position succeeds iff the symbol is a base or a code; a success is a base among its options; a failure is `KeyError` of that symbol |
| RandomVariant.DeambigulateRandom | metmap/metmap.py:32-38 | succeeds iff every upper-cased symbol is a base or a code; a success has the input's length with each position a base among its options; a failure is a `KeyError` |
| RandomVariant.RandomFailsAtFirstBadSymbol | metmap/metmap.py:38 | a failure is the `KeyError` of the first symbol that is neither base nor code |
| RandomVariant.RandomIsListed | metmap/metmap.py:32-38 | for upper-case input, every random variant is one that `deambigulate_all` lists |
| RandomVariant.RandomReachesEveryVariant | metmap/metmap.py:32-38 | conversely, every listed variant is produced by some rolls, when all symbols are bases or codes |
| Sampling.RandomVariantIsListed | metmap/metmap.py:50-51 | for upper-case input, a string shaped like a random variant is among those `deambigulate_all` lists |
| Sampling.PickNRandomWithoutDuplicates | metmap/metmap.py:41-52 | `ValueError` iff `n` exceeds the count; `n` equal to the count returns the full list; otherwise `n` distinct random variants, each the outcome of a consumed draw; a `KeyError` is the failing draw's |
| Composer.PartsForMotif | metmap/metmap.py:79-96 | what one line adds satisfies its rule's contribution; only a rule-"2" line can fail |
| Composer.GeneratePartsForCassette | metmap/metmap.py:72-98 | the parts list is the concatenation, in line order, of one valid contribution per line; a failure needs a rule-"2" line |
| Composer.Rule1Copies | metmap/metmap.py:84 | rule "1" holds `copy_rule1 * count` entries, each variant exactly `copy_rule1` times and nothing else |
| Composer.Rule2Split | metmap/metmap.py:87-92 | a dense rule-"2" contribution is full copies of the variant list followed by distinct random variants, `copy_rule2` entries in all |
| Composer.Rule2Balanced | metmap/metmap.py:87-92 | a dense rule-"2" contribution has `copy_rule2` entries, only variants, each `q` or `q + 1` times with `q = copy_rule2 // count` |
| Composer.Rule2Sparse | metmap/metmap.py:93-94 | a sparse rule-"2" contribution has `copy_rule2` entries, only variants, none repeated |
| Composer.OtherRuleAddsNothing | metmap/metmap.py:95-96 | an unrecognised rule adds nothing |
| Arrangement.Shuffle | metmap/metmap.py:110 | whatever the rolls, the shuffle is a permutation |
| Arrangement.BadPositions | metmap/metmap.py:112 | the bad positions are, in increasing order, exactly the indices whose element equals its right neighbour |
| Arrangement.DestutterFacts | metmap/metmap.py:119 | what popping keeps starts like the list, has no equal neighbours, keeps every value and no extra copies |
| Arrangement.PopBadPositions | metmap/metmap.py:119 | popping from the highest bad position down leaves one element per run of equal neighbours; the popped elements are the bad positions' elements, from the highest; together the two are a permutation of the list |
| Arrangement.FitKeepsNoAdjacent | metmap/metmap.py:123-139 | inserting at a slot the loop accepts keeps the no-equal-neighbours invariant |
| Arrangement.PlaceFirstFit | metmap/metmap.py:123-139 | inserts at the first accepting index (front, end or gap); if none accepts, the list is unchanged; the multiset grows by the element; the invariant is kept |
| Arrangement.PlaceAll | metmap/metmap.py:121-142 | the invariant is kept; when all are placed the result is motifs plus elements as a multiset; otherwise it is shorter, holding exactly the motifs and the elements before the first one that fits at no index of it; it always lies between the two |
| Arrangement.Repair | metmap/metmap.py:112-144 | the result has no equal neighbours and the same values; a returning attempt is a permutation; a failed one is strictly shorter |
| Arrangement.ShuffleMotifs | metmap/metmap.py:101-144 | terminates with no equal neighbours, every input value present, no extra copies, at least one element lost per failed repair (which is why the loop ends), and a permutation when no repair failed |
| Assembly.Linker | metmap/metmap.py:177 | a linker is `how_many_Ns` concrete bases (none for a non-positive count) |
| Assembly.LinkerIsRandomNs | metmap/metmap.py:177 | `deambigulate_random("N" * k)` never fails and yields exactly that linker |
| Assembly.Linkers | metmap/metmap.py:176-177 | one linker per motif, each `how_many_Ns` bases |
| Assembly.JoinLength | metmap/metmap.py:175-179 | the joined string's length is the sum of all linker and motif lengths |
| Assembly.JoinLayout | metmap/metmap.py:175-179 | linker `i` and motif `i` sit back to back at offset `i` of the joined string |
| Assembly.JoinWithBaseLinkers | metmap/metmap.py:173-179 | in every output string, motif `i` appears unchanged right after `how_many_Ns` concrete bases |
| Assembly.JoinCassettes | metmap/metmap.py:172-180 | one string per arrangement, each the join of the arrangement with its own linkers |
| Assembly.DoItAll | metmap/metmap.py:147-180 | on success: valid contributions per line; exactly `nresults` strings from pairwise distinct arrangements; each arrangement has no equal neighbours and draws only on the parts list; each string joins its arrangement with linkers; a non-`OutOfDraws` failure needs a rule-"2" line |

## Left out

- Reading and splitting the motif file (metmap/metmap.py:74): `generate_parts_for_cassette` takes the parsed `(motif, rule)` pairs.
- The diagnostic `print` calls (lines 81, 83, 86, 96, 107): output only.
- The Biopython import (line 2): nothing in the core uses it.
- Probability: the model says which outcomes are possible for given random draws, not how likely they are. Uniformity and termination with probability 1 are not modelled.
- The RNG is shared by the shuffles, picks and linkers in the source. Here they are independent oracle parameters.
- Sampling.PickNRandomWithoutDuplicates: the source loop can retry forever (always for `n < 0`). The model stops with `OutOfDraws` when its finite list of draws is exhausted.
- Assembly.DoItAll: the loop that collects distinct arrangements can run forever in the source, for example when `nresults` is negative or exceeds the number of distinct arrangements. The model stops with `OutOfDraws` when its list of shuffles is exhausted.
- The iteration order of Python sets: the order of picks and of output strings follows first insertion here.
- Upper: only ASCII `a`-`z` are upper-cased. Python's full Unicode `str.upper` is not modelled.
- Variants.DeambigulateAllOrder, Variants.DeambigulateAllSpec, RandomVariant.RandomIsListed, RandomVariant.RandomReachesEveryVariant, Sampling.RandomVariantIsListed and the Composer rule lemmas are stated for upper-case motifs only. For lower-case codes the case-sensitive count disagrees with the upper-casing expansion.
- `int(copy_rule2 / how_many)` is float division truncated. It is modelled as integer division, which agrees for the positive operands that reach it, up to floating-point rounding of very large counts.
