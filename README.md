# HLA allele resolution of vcf2pyhla, in Dafny

`vcf2pyhla.py` turns an imputed HLA VCF table into one list of HLA alleles per
sample. Rows are allele names (`A*02`, `A*02:01:01:01`, `DQB1*06:02`, …) and
columns are samples. Each cell is a genotype string such as `1|1:0.998:...`.
For each sample the program:

1. keeps the rows whose genotype holds no `0|0` (the sample's calls);
2. reads off each call three things:
   - its score, the first colon-delimited decimal number;
   - whether it is homozygous (`1|1` somewhere in the genotype);
   - whether it is high resolution (no other call's name contains its name);
3. reads off each name its gene, the run of `[A-Z0-1]` before the first
   matching `*`;
4. visits the sample's genes in ascending order and appends, per gene:
   - the single high-resolution homozygous call twice (rule A);
   - otherwise the two best-scored high-resolution calls, best first (rule B);
   - otherwise the single high-resolution call followed by `"NA"` (rule C);
   - otherwise nothing;
5. stores that list under the sample's name in a dictionary.

The model has four modules:

- `Text` (text.dfy) models Python's substring test `x in y`, Python's
  ordering of strings, and `sorted` of the distinct strings.
- `Calls` (calls.dfy) models the `0|0` filter, the homozygous marker and the
  score pattern `:(([0-9]*[.])?[0-9]+):`, with the exact decimal value of the
  match.
- `Alleles` (alleles.dfy) covers the high-resolution relation, the
  `find_high_res` loop, the gene pattern as written, `nlargest(2)` and the
  per-gene rule cascade. The cascade is stated as a relation, so ties between
  scores may be broken either way. This module also holds the lemmas about the
  shape of a sample's result.
- `Pipeline` (pipeline.dfy) holds the class `AlleleList`. Its constructor
  builds the sample's table, and `SortAndFill` is its loop over the genes. The
  module also holds the per-column driver and the `get_true_alleles` loop
  that builds the dictionary.

`SortAndFill` and `GetTrueAlleles` return ghost witnesses next to their real
results. The witnesses are the slots each gene contributed and each sample's
list. They let every property of the result be proved once, about the
relation `ResolvedBy`, and then applied to whatever the methods return.

## Model

| member | source | states |
|---|---|---|
| Text.Contains | vcf2pyhla.py:57 | Python's `x in y` holds exactly when `x` occurs at some offset of `y` |
| Text.ContainedIsShorter | vcf2pyhla.py:57 | a name contained in a different name is strictly shorter than it |
| Text.ContainsAntisymmetric | vcf2pyhla.py:57 | two names that contain each other are equal, so the covering relation between distinct names is antisymmetric |
| Text.BelowTotal | vcf2pyhla.py:69 | Python's string order is total on distinct strings, so `sorted` can order any set of genes |
| Text.BelowTransitive | vcf2pyhla.py:69 | Python's string order is transitive |
| Text.SortedDistinct | vcf2pyhla.py:68-69 | `sorted(unique(...))` is strictly ascending, has exactly the elements of its input, and is no longer than its input |
| Calls.KeepCall | vcf2pyhla.py:95 | a row is kept exactly when no position of its genotype starts the three characters `0|0` |
| Calls.FilterSample | vcf2pyhla.py:95 | the sample's calls are exactly the rows whose genotype passes `KeepCall` |
| Calls.FilterCounts | vcf2pyhla.py:95 | the filter keeps every passing row as often as it occurs and drops every other row: its result is a sub-multiset of the column |
| Calls.FilterIdempotent | vcf2pyhla.py:95 | filtering the calls again leaves them unchanged |
| Calls.IsHomozygous | vcf2pyhla.py:40 | a call is homozygous exactly when its genotype contains `1|1` at some position |
| Calls.FieldSearch | vcf2pyhla.py:37 | the search finds the leftmost colon-delimited number field at or after a position, or reports that there is none |
| Calls.ScoreText | vcf2pyhla.py:37 | the score text is absent exactly when no `:number:` field occurs; otherwise it is a number and it is the leftmost such field |
| Calls.Fraction | vcf2pyhla.py:37-39 | the digits after the point contribute a non-negative value, below 1 when there are fewer digits than the scale |
| Calls.DigitsAppend | vcf2pyhla.py:37-39 | the digits of two runs written together are worth the first run shifted by the length of the second, plus the second |
| Calls.PointRemoved | vcf2pyhla.py:37-39 | a whole part plus its fraction equals all the digits with the point removed over the fraction's scale |
| Calls.FractionSplit | vcf2pyhla.py:37-39 | digits over a scale split into the whole part and the fraction of the remainder |
| Calls.NumberValue | vcf2pyhla.py:37-39 | `pd.to_numeric` of a matched number: a run of digits is worth its decimal value; a number with a point is worth all its digits with the point removed over ten to the number of digits after the point, and lies between its whole part and the whole part plus one |
| Calls.NumberValueExamples | vcf2pyhla.py:37-39 | `0.998` is worth 0.998 and `.5` is worth 0.5 |
| Calls.ScoreOf | vcf2pyhla.py:37-39 | a call has a score exactly when the score pattern matches its genotype |
| Calls.ScoreExampleDecimal | vcf2pyhla.py:37-39 | `1|1:0.998:0.5` scores 0.998: the first field wins |
| Calls.ScoreExampleLeadingPoint | vcf2pyhla.py:37-39 | `0|1:.5:` scores 0.5: the digits before the point are optional |
| Calls.ScoreExampleSkipsText | vcf2pyhla.py:37-39 | `1|0:x:12:` scores 12: a colon field that is not a number is passed over |
| Calls.ScoreExampleUnclosed | vcf2pyhla.py:37-39 | `1|1:0.998` has no score: the number must be followed by a colon |
| Alleles.FindHighRes | vcf2pyhla.py:48-61 | the flags have one entry per name, and entry `i` is true exactly when no other name of the list contains name `i` |
| Alleles.RepeatedNameNotHighRes | vcf2pyhla.py:55-59 | a name listed twice is contained in its twin, so neither copy is high resolution |
| Alleles.DocumentedExample | vcf2pyhla.py:49-53 | for `['A*02', 'A*02:01:01:01']` the flags are `[False, True]` |
| Alleles.LongestIsHighRes | vcf2pyhla.py:55-59 | among distinct names, a name of maximal length is high resolution |
| Alleles.LongestIndex | vcf2pyhla.py:55-59 | a non-empty list has a position whose name is at least as long as every other |
| Alleles.SomeHighRes | vcf2pyhla.py:55-59 | a non-empty list of distinct names has at least one high-resolution name |
| Alleles.FirstGeneStar | vcf2pyhla.py:64 | finds the first `*` that follows a character of `[A-Z0-1]`, the end of the pattern's leftmost match |
| Alleles.RunStart | vcf2pyhla.py:64 | finds where the run of `[A-Z0-1]` that ends at a position starts |
| Alleles.GeneOf | vcf2pyhla.py:63-64 | a name has no gene exactly when no `*` follows a character of `[A-Z0-1]`; otherwise its gene is the whole run of such characters before the first such `*` |
| Alleles.GeneExamples | vcf2pyhla.py:63-64 | `A*02:01` has gene `A`, `DQB1*06:02` has gene `DQB1`, and `DRB3*01:01` has none under the pattern as written |
| Alleles.Frame | vcf2pyhla.py:35-46 | the table has one entry per call, with the call's name and genotype; each entry's score, homozygous flag, high-resolution flag (over all names) and gene agree with their definitions |
| Alleles.GeneLabels | vcf2pyhla.py:68 | the gene level of the index holds exactly the genes some entry has |
| Alleles.SortedGenes | vcf2pyhla.py:68-69 | the genes visited are strictly ascending and are exactly the genes of the sample's entries |
| Alleles.GeneRows | vcf2pyhla.py:70 | an entry is in `df.loc[[gene]]` exactly when it is an entry of that gene |
| Alleles.GeneRowsCounts | vcf2pyhla.py:70 | `df.loc[[gene]]` holds every entry of the gene as many times as the table does, and no other entry |
| Alleles.HomozygousHighRes | vcf2pyhla.py:72 | an entry is selected exactly when it is both homozygous and high resolution |
| Alleles.HomozygousHighResCounts | vcf2pyhla.py:72 | the selection holds every homozygous high-resolution entry as many times as the gene's rows do, and no other entry, which fixes the row count that `count()[0]` tests at line 78 |
| Alleles.HighResCalls | vcf2pyhla.py:75 | an entry is selected exactly when it is high resolution |
| Alleles.HighResCounts | vcf2pyhla.py:75 | the selection holds every high-resolution entry as many times as the gene's rows do, and no other entry, which fixes the row count that lines 80-82 test |
| Alleles.NLargestTwo | vcf2pyhla.py:75 | `nlargest(2)` gives `min(2, n)` positions; when it gives two, the first has the larger score and no other entry scores above the second |
| Alleles.TopPairScoresDetermined | vcf2pyhla.py:75 | however ties are broken, the two selected scores are the same |
| Alleles.SelectionShape | vcf2pyhla.py:77-85 | a gene contributes none or two slots, none exactly when it has no high-resolution call; the first slot is a high-resolution call of the gene, the second another one or `"NA"` |
| Alleles.ResultGroupedByGene | vcf2pyhla.py:66-87 | a sample's result is a sequence of pairs, at most one pair per gene, each pair made of calls of one gene, the genes strictly ascending; so its length is even and at most twice the number of genes |
| Alleles.NotAvailableHasNoGene | vcf2pyhla.py:83 | `"NA"` has no gene, so it is never a call of a gene |
| Alleles.NotAvailableOnlySecond | vcf2pyhla.py:83 | `"NA"` only ever stands in the second slot of a pair |
| Alleles.GeneSlotsInResult | vcf2pyhla.py:66-87 | every gene of the sample has its selected slots, when there are two, as a pair of the result |
| Alleles.HomozygousRule | vcf2pyhla.py:78-79 | rule A: when exactly one high-resolution call of a gene is homozygous, that name appears twice as a pair of the result, whatever the scores |
| Alleles.TopTwoRule | vcf2pyhla.py:80-81 | rule B: otherwise, with two or more high-resolution calls, the result holds as a pair two of them with the two largest scores, the larger first |
| Alleles.SingleCallRule | vcf2pyhla.py:82-83 | rule C: otherwise, with exactly one high-resolution call, the result holds that name paired with `"NA"` |
| Alleles.NoCallNoSlots | vcf2pyhla.py:77-85 | a gene without high-resolution calls contributes nothing: no pair of the result is of that gene |
| Alleles.PairGeneUnique | vcf2pyhla.py:43-46 | in a table with consistent genes, a pair of the result belongs to one gene only |
| Alleles.FlattenAppend | vcf2pyhla.py:85 | extending the result slice by slice is the same as concatenating the slices |
| Pipeline.AlleleList.constructor | vcf2pyhla.py:35-46 | the table built column by column from the calls is exactly `Frame` of those calls |
| Pipeline.AlleleList.SortAndFill | vcf2pyhla.py:66-87 | the result fails exactly when a name has no gene, because `sorted` cannot compare a missing gene; otherwise it is the concatenation, genes ascending, of each gene's slots under the rule cascade |
| Pipeline.SampleRows | vcf2pyhla.py:93-95 | the column of a sample pairs each allele name with that sample's genotype |
| Pipeline.SampleCalls | vcf2pyhla.py:95 | the calls of a sample are exactly its rows without `0|0` |
| Pipeline.ResolveColumn | vcf2pyhla.py:95-96 | filtering a column, building the resolver and resolving gives that sample's list, with a failure exactly when a call's name has no gene |
| Pipeline.DictNext | vcf2pyhla.py:96 | one more assignment extends the dictionary by that sample's entry |
| Pipeline.DictKeys | vcf2pyhla.py:92-96 | the dictionary's keys are exactly the names of the samples processed |
| Pipeline.DictValues | vcf2pyhla.py:92-96 | under each name stands the list of the last sample of that name |
| Pipeline.DictDistinct | vcf2pyhla.py:92-96 | with distinct sample names, every sample's list stands under its own name |
| Pipeline.GetTrueAlleles | vcf2pyhla.py:90-97 | the dictionary is produced exactly when every sample can be resolved; it is the sequence of assignments of each sample's list, and each list is the sample's resolution |

## Left out

- `read_vcf` (vcf2pyhla.py:15-31) is file input and is not modelled. It covers reading the tab-separated file, dropping the fixed VCF columns and stripping the `HLA_` prefix. The model starts from the allele names and the sample columns.
- The command-line block (vcf2pyhla.py:100-118) is not modelled: argument parsing, the phenotype file, and printing one line per sample.
- Pipeline.GetTrueAlleles, Pipeline.ResolveColumn and Pipeline.AlleleList.constructor require every call to carry a score (`AllScored`). In the source a call whose genotype does not match the score pattern gets a pandas NaN score. The model does not represent NaN, so how pandas' `nlargest` and `count` treat a NaN score is not modelled.
- Calls.NumberValue: scores are exact decimals (`real`), not 64-bit floats. Two scores that differ only beyond float precision compare as different here, but would tie in the source.
- Calls.FilterSample: a missing cell (pandas NaN) is kept by `na=False` in the source. In the model every cell is a string, so that case does not arise.
- Alleles.NLargestTwo: the order among equal scores is not pinned to pandas' `keep="first"`. The selection is stated for any tie-break (`TopPair`), and `TopPairScoresDetermined` shows the chosen scores are the same either way.
- Pipeline.AlleleList.SortAndFill: when some names have a gene and others do not, the source raises a `TypeError` in `sorted`. The model returns `Unsortable` for any name without a gene. The case where no name has a gene is not told apart: pandas would then attempt a lookup of a missing label.
- Alleles.GeneOf follows the code's character class `[A-Z0-1]`, not `[A-Z0-9]`. Names such as `DRB3*01:01` therefore have no gene, and they make a sample that also has a name with a gene unsortable, as in the code.
- Alleles.SortedGenes: the genes of a sample come from that sample's own calls, as in the code, not from all samples together.
- Pipeline.GetTrueAlleles: the dictionary is a `map`, so the insertion order in which Python's `dict` would later print the samples is not modelled.
- The rows of `df.loc[[gene]]` are kept in table order. pandas' own order for an unsorted MultiIndex lookup is not modelled; only `nlargest`'s choice depends on it, and only through ties.
