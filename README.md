# disulfide-replace analysis scripts in Dafny

This project models the non-plotting logic of two analysis scripts of the
disulfide-replace repository, which post-process Rosetta FastRelax scores of
disulfide-replacement mutants, and proves properties of that model.

- `scripts/analysis/plot_fastrelax_results.py`:
  - the residue table `AA_MAP`;
  - `shorten_mutations`, which turns a mutation label such as `L6LEU-L81LEU` into `L6L-L81L`;
  - `extract_mutant_id`, a leftmost search for `(Group\d+|G\d+)_mutant_\d+`;
  - the two-line axis label built from both;
  - the removal of rows whose `avg_score` is `FAILED`;
  - the selection of the `rep*` replicate columns.
- `scripts/analysis/bootstrap_fastrelax_analysis.py`:
  - `bootstrap_stats`: drop missing values, return the all-NaN sentinel for an empty sample, resample `n_bootstrap` times with replacement, and summarise the resample means;
  - the loading of the input tables that exist, and their concatenation;
  - `clean_fn`;
  - the grouping of the rows by (clean name, mutations, group), in sorted key order;
  - the row-major flattening of each group's replicate values;
  - the per-group summary with its `n_samples` count;
  - the loop that builds the results.

Files, one module each:

| file | module | contents |
|---|---|---|
| `common.dfy` | `Common` | `Option` (None is a NaN or missing cell), prefix and suffix tests, the order-preserving `Filter` and `Map` of list comprehensions |
| `mutations.dfy` | `Mutations` | the residue table, `split('-')` / `'-'.join`, the shortening as a specification function, and the imperative loops of `shorten_mutations` proved against it |
| `mutant_ids.dfy` | `MutantIds` | a hand-written matcher for the identifier pattern, the leftmost search, `extract_mutant_id` |
| `tables.dfy` | `Tables` | rows and tables, missing cells after concatenation, replicate-column selection |
| `plot_script.dfy` | `PlotScript` | the `FAILED` filter and the plot label |
| `ordering.dfy` | `Ordering` | Python's string order, tuple order on key triples, sorting |
| `grouping.dfy` | `Grouping` | grouping of records by a key function, in first-appearance order, the grouping step, and the addition of new keys that lays out the columns of a concatenation |
| `bootstrap.dfy` | `Bootstrap` | NaN removal, resampling, `bootstrap_stats` as a method, loading, `clean_fn`, grouping and flattening of rows, summaries, and `main`'s loops |

Conventions:

- `Option<Score>` stands for a cell that may be NaN; `Score` is `real`.
- The estimators `np.mean`, `np.std` and `np.percentile` are parameters (`Numerics`).
- The random draws are a parameter `rng(call, iteration, position)`. The drawn index is that number modulo the sample size. `ResampleReachable` shows that every with-replacement sample can be drawn.
- The `for ... else` search over the table is modelled with the entries in the dictionary literal's order. It is proved equal to a lookup that does not depend on the visiting order.

## Model

| member | source | states |
|---|---|---|
| Common.Filter | scripts/analysis/plot_fastrelax_results.py:115 | a comprehension with a condition keeps at most as many elements as it is given, and only ones satisfying the condition |
| Common.FilterMembership | scripts/analysis/plot_fastrelax_results.py:115 | an element is selected iff it occurs in the input and satisfies the condition |
| Common.FilterMembers | scripts/analysis/plot_fastrelax_results.py:115 | the same, for every element at once |
| Common.FilterConcat | scripts/analysis/plot_fastrelax_results.py:115 | selection distributes over concatenation, so the kept elements keep their order |
| Common.FilterSingleton | scripts/analysis/plot_fastrelax_results.py:115 | a single element is kept exactly when it satisfies the condition |
| Common.Map | scripts/analysis/plot_fastrelax_results.py:28-37 | a comprehension without condition has the input's length, and element i is the image of input element i |
| Common.MapPrefix | scripts/analysis/plot_fastrelax_results.py:28-37 | mapping one more element extends the mapped prefix by that element's image |
| Common.StartsWith | scripts/analysis/plot_fastrelax_results.py:115 | `str.startswith`; StartsWithChars characterises it |
| Common.StartsWithChars | scripts/analysis/plot_fastrelax_results.py:115 | the prefix test holds iff the prefix fits and agrees with the string at every position |
| Common.EndsWith | scripts/analysis/plot_fastrelax_results.py:31-32 | `str.endswith`; EndsWithChars characterises it |
| Common.EndsWithChars | scripts/analysis/plot_fastrelax_results.py:31-32 | the suffix test holds iff the suffix fits and agrees with the last characters at every position |
| Mutations.AaTable | scripts/analysis/plot_fastrelax_results.py:17-22 | the dictionary literal as a list of (three-letter key, code) pairs in literal order; TableShape proves its shape |
| Mutations.Lookup | scripts/analysis/plot_fastrelax_results.py:17-22 | a found code is stored under the key in the table; nothing is found iff no entry has the key |
| Mutations.LookupEntry | scripts/analysis/plot_fastrelax_results.py:17-22 | with distinct keys, looking up the key of an entry yields that entry's code |
| Mutations.TableShape | scripts/analysis/plot_fastrelax_results.py:17-22 | every key has three characters, every code is an upper-case letter, and no key occurs twice |
| Mutations.TableKeysDistinct | scripts/analysis/plot_fastrelax_results.py:17-22 | no key of the 20-entry table occurs twice |
| Mutations.SuffixKeyUnique | scripts/analysis/plot_fastrelax_results.py:31-35 | at most one key is a suffix of a given part |
| Mutations.Split | scripts/analysis/plot_fastrelax_results.py:26 | `split('-')` always yields at least one part |
| Mutations.SplitPartsDashFree | scripts/analysis/plot_fastrelax_results.py:26 | no part of a split contains '-' |
| Mutations.JoinSplit | scripts/analysis/plot_fastrelax_results.py:26-38 | joining the parts of a split with '-' gives back the original string |
| Mutations.SplitJoin | scripts/analysis/plot_fastrelax_results.py:26-38 | splitting a join of dash-free parts gives back those parts |
| Mutations.SplitDashFree | scripts/analysis/plot_fastrelax_results.py:26 | a string without '-' splits into itself alone |
| Mutations.SplitAtDash | scripts/analysis/plot_fastrelax_results.py:26 | a dash-free part followed by '-' splits off as the first part |
| Mutations.Join | scripts/analysis/plot_fastrelax_results.py:38 | `'-'.join`: a non-empty list of parts joins into a string that starts with the first part |
| Mutations.JoinShorter | scripts/analysis/plot_fastrelax_results.py:38 | joining parts that are each no longer than their counterparts gives a string no longer than their join |
| Mutations.ShortenPart | scripts/analysis/plot_fastrelax_results.py:31-37 | one part shortened: either unchanged, or two characters shorter with everything before its last three characters kept |
| Mutations.Shortened | scripts/analysis/plot_fastrelax_results.py:24-38 | `shorten_mutations` as a function: the result is never longer than the input |
| Mutations.ShortenEach | scripts/analysis/plot_fastrelax_results.py:27-37 | shortening every part keeps the number of parts |
| Mutations.ShortenEachPrefix | scripts/analysis/plot_fastrelax_results.py:27-37 | shortening one more part appends that part's shortening, which is what the append in the loop does |
| Mutations.ShortenPartOfKey | scripts/analysis/plot_fastrelax_results.py:31-35 | a part ending in a key becomes its first len-3 characters plus that key's code, exactly two characters shorter |
| Mutations.ShortenPartNoKey | scripts/analysis/plot_fastrelax_results.py:36-37 | a part that ends in no key is copied unchanged |
| Mutations.ShortenPartAvoids | scripts/analysis/plot_fastrelax_results.py:31-37 | shortening adds no character other than an upper-case letter |
| Mutations.SplitAvoids | scripts/analysis/plot_fastrelax_results.py:26 | a character absent from the string is absent from every part |
| Mutations.JoinAvoids | scripts/analysis/plot_fastrelax_results.py:38 | joining adds no character other than '-' |
| Mutations.ShortenedChars | scripts/analysis/plot_fastrelax_results.py:24-38 | a character that is neither '-' nor an upper-case letter occurs in the result only if it occurs in the input |
| Mutations.ShortenedParts | scripts/analysis/plot_fastrelax_results.py:26-38 | the result has as many '-'-separated parts as the input, and its part i is the shortening of input part i alone |
| Mutations.ShortenedNoKey | scripts/analysis/plot_fastrelax_results.py:36-38 | a label in which no part ends in a key is returned unchanged |
| Mutations.ShortenedExample | scripts/analysis/plot_fastrelax_results.py:25 | `L6LEU-L81LEU` becomes `L6L-L81L` |
| Mutations.SplitExample | scripts/analysis/plot_fastrelax_results.py:25 | `L6LEU-L81LEU` splits into `L6LEU` and `L81LEU` |
| Mutations.ShortenEachExample | scripts/analysis/plot_fastrelax_results.py:25 | those parts shorten to `L6L` and `L81L` |
| Mutations.ShortenExamplePart | scripts/analysis/plot_fastrelax_results.py:25 | each example part ends in `LEU` and gets code `L` |
| Mutations.JoinExample | scripts/analysis/plot_fastrelax_results.py:25 | `L6L` and `L81L` join to `L6L-L81L` |
| Mutations.ForElseSpec | scripts/analysis/plot_fastrelax_results.py:31-37 | the for/else search over any list of three-letter keys is the lookup of the part's last three characters in that list |
| Mutations.DropLast3 | scripts/analysis/plot_fastrelax_results.py:32 | `p[:-3]`: three characters fewer (none for a shorter part), and a prefix of the part |
| Mutations.ForElse | scripts/analysis/plot_fastrelax_results.py:31-37 | the for/else search returns the part unchanged or its `p[:-3]` plus the code of some visited key the part ends in |
| Mutations.ForElseAnyOrder | scripts/analysis/plot_fastrelax_results.py:31-37 | the search gives the same result for every visiting order of the table's entries |
| Mutations.SearchOrder | scripts/analysis/plot_fastrelax_results.py:31-37 | the inner loop with its `break` and fall-back computes the for/else search over the given order |
| Mutations.ShortenOne | scripts/analysis/plot_fastrelax_results.py:31-37 | the inner loop over the table computes the order-independent shortening of one part |
| Mutations.ShortenMutations | scripts/analysis/plot_fastrelax_results.py:24-38 | the method computes the shortening whose properties are proved above |
| MutantIds.DigitRunEnd | scripts/analysis/plot_fastrelax_results.py:43 | the greedy `\d+` run ends between its start and the end of the string |
| MutantIds.DigitRunEndMaximal | scripts/analysis/plot_fastrelax_results.py:43 | the run consists of digits and is maximal: it ends at the end of the string or before a non-digit |
| MutantIds.DigitRunEndExact | scripts/analysis/plot_fastrelax_results.py:43 | a run of digits followed by a non-digit or the end is exactly what the greedy run takes |
| MutantIds.MatchBranch | scripts/analysis/plot_fastrelax_results.py:43 | a match of one alternative ends after its start and within the string |
| MutantIds.MatchAt | scripts/analysis/plot_fastrelax_results.py:43 | a match of the pattern ends after its start and within the string |
| MutantIds.MatchAtSound | scripts/analysis/plot_fastrelax_results.py:43 | a match is `Group` or `G`, digits, `_mutant_`, digits, and is not followed by a further digit |
| MutantIds.MatchBranchComplete | scripts/analysis/plot_fastrelax_results.py:43 | such a text with maximal runs is matched by its alternative, ending where it ends |
| MutantIds.MatchAtComplete | scripts/analysis/plot_fastrelax_results.py:43 | every such text with maximal digit runs is matched by the pattern, ending where it ends |
| MutantIds.Search | scripts/analysis/plot_fastrelax_results.py:43 | a search result is a matching position at or after the start, with its match end |
| MutantIds.SearchFinds | scripts/analysis/plot_fastrelax_results.py:43 | the first matching position is the one returned |
| MutantIds.SearchNone | scripts/analysis/plot_fastrelax_results.py:43 | when no position matches, the search fails |
| MutantIds.SearchLeftmost | scripts/analysis/plot_fastrelax_results.py:43 | no position before the returned one matches |
| MutantIds.SearchNoneComplete | scripts/analysis/plot_fastrelax_results.py:43 | when the search fails, no position matches |
| MutantIds.ExtractMutantId | scripts/analysis/plot_fastrelax_results.py:40-46 | the result is the input or a whole match of the pattern inside it |
| MutantIds.ExtractNoMatch | scripts/analysis/plot_fastrelax_results.py:46 | without a match the input is returned unchanged |
| MutantIds.ExtractLeftmost | scripts/analysis/plot_fastrelax_results.py:43-45 | with a match the result is the leftmost match: a substring of the form head, maximal digits, `_mutant_`, maximal digits |
| MutantIds.ExtractExample | scripts/analysis/plot_fastrelax_results.py:41 | `G1_mutant_000_G1_mutant_000.pdb_0001` gives `G1_mutant_000` |
| Tables.RepColumns | scripts/analysis/plot_fastrelax_results.py:115 | the replicate columns are exactly the columns whose name starts with `rep` |
| Tables.RepColumnsInOrder | scripts/analysis/plot_fastrelax_results.py:115 | the selection keeps column order: it distributes over concatenation, and a single column is kept iff it starts with `rep` |
| Tables.Cell | scripts/analysis/bootstrap_fastrelax_analysis.py:58 | a column a row does not have reads as missing (NaN), as after `pd.concat`; a column it has reads its value |
| PlotScript.KeepCompleted | scripts/analysis/plot_fastrelax_results.py:112 | no kept row has `avg_score` `FAILED`, and a row is kept iff it is an input row that did not fail |
| PlotScript.KeepCompletedInOrder | scripts/analysis/plot_fastrelax_results.py:112 | the filter keeps row order: it distributes over concatenation and keeps a single row iff it did not fail |
| PlotScript.PlotLabel | scripts/analysis/plot_fastrelax_results.py:131 | the label starts with the shortened mutations, has a line break right after them, ends with the parenthesised identifier, and has nothing else |
| PlotScript.LabelLayout | scripts/analysis/plot_fastrelax_results.py:131 | the same layout for any two lines |
| PlotScript.PlotLabelLines | scripts/analysis/plot_fastrelax_results.py:131 | for mutations without a line break, the label's first line is the shortened mutations and its second line the parenthesised mutant identifier |
| Bootstrap.RemoveMissing | scripts/analysis/bootstrap_fastrelax_analysis.py:26-27 | NaN removal never lengthens the data |
| Bootstrap.RemoveMissingMembers | scripts/analysis/bootstrap_fastrelax_analysis.py:27 | a value remains iff it occurs in the data as a non-missing value |
| Bootstrap.RemoveMissingConcat | scripts/analysis/bootstrap_fastrelax_analysis.py:27 | removal distributes over concatenation, so the kept values keep their order |
| Bootstrap.RemoveMissingCons | scripts/analysis/bootstrap_fastrelax_analysis.py:27 | a leading value is kept iff it is not missing |
| Bootstrap.RemoveMissingEmpty | scripts/analysis/bootstrap_fastrelax_analysis.py:27-28 | nothing remains iff every value is missing |
| Bootstrap.RemoveMissingNone | scripts/analysis/bootstrap_fastrelax_analysis.py:27 | data without missing values keeps every value, in place |
| Bootstrap.RemoveMissingExample | scripts/analysis/bootstrap_fastrelax_analysis.py:27 | five values with the second missing leave the other four, in order |
| Bootstrap.Resample | scripts/analysis/bootstrap_fastrelax_analysis.py:33 | a resample has as many values as the cleaned data |
| Bootstrap.ResampleFromData | scripts/analysis/bootstrap_fastrelax_analysis.py:33 | every resampled value is a non-missing value of the data |
| Bootstrap.ResampleReachable | scripts/analysis/bootstrap_fastrelax_analysis.py:33 | every sequence of indices is drawn by some random source, so every with-replacement sample is possible |
| Bootstrap.BootMeans | scripts/analysis/bootstrap_fastrelax_analysis.py:31-34 | there are exactly `n_bootstrap` resample means |
| Bootstrap.PercentBounds | scripts/analysis/bootstrap_fastrelax_analysis.py:39-41 | for a level in (0, 1) the lower percentile is below 50 and the upper above, both within (0, 100); the default level gives 2.5 and 97.5 |
| Bootstrap.BootstrapOf | scripts/analysis/bootstrap_fastrelax_analysis.py:24-42 | `bootstrap_stats` as a function: the all-NaN sentinel is returned iff every value is missing |
| Bootstrap.BootstrapStatsOfMeans | scripts/analysis/bootstrap_fastrelax_analysis.py:31-42 | otherwise the statistics are the mean, std and two percentiles of exactly `n_bootstrap` means, mean b being that of resample b |
| Bootstrap.BootstrapStats | scripts/analysis/bootstrap_fastrelax_analysis.py:24-42 | the method with its loop computes the bootstrap statistics whose properties are proved above |
| Bootstrap.Present | scripts/analysis/bootstrap_fastrelax_analysis.py:45-54 | the loaded tables are at most the inputs, and there are none iff no input file exists |
| Bootstrap.PresentMembers | scripts/analysis/bootstrap_fastrelax_analysis.py:45-52 | a table is loaded iff it is the content of an existing input file |
| Bootstrap.PresentConcat | scripts/analysis/bootstrap_fastrelax_analysis.py:45-52 | loading two runs of files gives the tables of the first followed by those of the second, so input order is kept |
| Bootstrap.LoadInputs | scripts/analysis/bootstrap_fastrelax_analysis.py:45-52 | the loading loop collects exactly the existing tables, in input order |
| Bootstrap.AddColumns | scripts/analysis/bootstrap_fastrelax_analysis.py:58 | adding a table's columns keeps the existing ones first, adds exactly the new names, and creates no duplicate |
| Bootstrap.CombinedColumns | scripts/analysis/bootstrap_fastrelax_analysis.py:58 | the concatenation has every column of every table, each once |
| Bootstrap.AddColumnsIsAddNew | scripts/analysis/bootstrap_fastrelax_analysis.py:58 | adding columns is adding new keys, with the names as keys |
| Grouping.AddNewSnoc | scripts/analysis/bootstrap_fastrelax_analysis.py:58 | one key more is added at the end exactly when it is new |
| Grouping.AddNewFirstKeys | scripts/analysis/bootstrap_fastrelax_analysis.py:58 | adding keys to the distinct keys of a list gives the distinct keys of the extended list in order of first appearance |
| Bootstrap.CombinedColumnsOrder | scripts/analysis/bootstrap_fastrelax_analysis.py:58 | the columns of the concatenation are the distinct column names of the tables in order of first appearance |
| Bootstrap.CombinedRows | scripts/analysis/bootstrap_fastrelax_analysis.py:58 | `pd.concat` of the rows: no tables give no rows |
| Bootstrap.CombinedRowsMembers | scripts/analysis/bootstrap_fastrelax_analysis.py:58 | a row is in the concatenation iff it is a row of one of the tables |
| Bootstrap.CombinedRowsSnoc | scripts/analysis/bootstrap_fastrelax_analysis.py:58 | concatenating one more table appends its rows |
| Bootstrap.CleanName | scripts/analysis/bootstrap_fastrelax_analysis.py:63-65 | `clean_fn`: the cleaned name is no longer than the file name, and is the name itself or a whole match of the pattern in it |
| Bootstrap.CleanNameAgrees | scripts/analysis/bootstrap_fastrelax_analysis.py:63-65 | `clean_fn` names a mutant exactly as `extract_mutant_id` of the plotting script does |
| Bootstrap.KeyOf | scripts/analysis/bootstrap_fastrelax_analysis.py:67-75 | the grouping key of a row: the identifier `extract_mutant_id` gives its file name, its mutations and its group |
| Grouping.WithKey | scripts/analysis/bootstrap_fastrelax_analysis.py:75-77 | a group holds at most the input records, all with the group's key |
| Grouping.WithKeyMembers | scripts/analysis/bootstrap_fastrelax_analysis.py:75-77 | a record is in the group of k iff it is an input record with key k |
| Grouping.WithKeyConcat | scripts/analysis/bootstrap_fastrelax_analysis.py:75-77 | the group of a concatenation is the concatenation of the groups |
| Grouping.WithKeySnoc | scripts/analysis/bootstrap_fastrelax_analysis.py:75-77 | appending a record extends its own group by it and leaves the others unchanged |
| Grouping.FirstKeys | scripts/analysis/bootstrap_fastrelax_analysis.py:75 | there are at most as many keys as records |
| Grouping.FirstKeysDistinct | scripts/analysis/bootstrap_fastrelax_analysis.py:75 | no key is listed twice |
| Grouping.FirstKeysMember | scripts/analysis/bootstrap_fastrelax_analysis.py:75 | a key is listed iff some record has it |
| Grouping.FirstKeysSnoc | scripts/analysis/bootstrap_fastrelax_analysis.py:75 | appending a record adds its key only when the key is new |
| Grouping.WithKeyAbsent | scripts/analysis/bootstrap_fastrelax_analysis.py:75-77 | a key that is not listed has an empty group |
| Grouping.GroupedKnownKey | scripts/analysis/bootstrap_fastrelax_analysis.py:75-77 | a record with a known key is appended to its group and the grouping stays exact |
| Grouping.GroupedNewKey | scripts/analysis/bootstrap_fastrelax_analysis.py:75-77 | a record with a new key opens a singleton group and the grouping stays exact |
| Grouping.GroupsUnionEmpty | scripts/analysis/bootstrap_fastrelax_analysis.py:75-77 | no records give empty groups |
| Grouping.GroupsUnionOtherKey | scripts/analysis/bootstrap_fastrelax_analysis.py:75-77 | a record whose key is not among the keys is in none of their groups |
| Grouping.GroupsUnionOwnKey | scripts/analysis/bootstrap_fastrelax_analysis.py:75-77 | with distinct keys a record is counted once, in its own group |
| Grouping.GroupsPartitionRecords | scripts/analysis/bootstrap_fastrelax_analysis.py:75-77 | groups of distinct keys covering every record together hold exactly the input, with multiplicity |
| Ordering.StringLessIrreflexive | scripts/analysis/bootstrap_fastrelax_analysis.py:75 | no string sorts before itself |
| Ordering.StringLessTransitive | scripts/analysis/bootstrap_fastrelax_analysis.py:75 | the string order is transitive |
| Ordering.StringLessTotal | scripts/analysis/bootstrap_fastrelax_analysis.py:75 | any two different strings are ordered |
| Ordering.StringLessAsymmetric | scripts/analysis/bootstrap_fastrelax_analysis.py:75 | two strings are never ordered both ways |
| Ordering.StringLessExample | scripts/analysis/bootstrap_fastrelax_analysis.py:75 | the order is textual: `G10_mutant_000` sorts before `G2_mutant_000`, and `G1_mutant_000` before `Group1_mutant_000` |
| Ordering.TripleLessOrder | scripts/analysis/bootstrap_fastrelax_analysis.py:75 | the order on (name, mutations, group) keys is a strict total order |
| Ordering.Insert | scripts/analysis/bootstrap_fastrelax_analysis.py:75 | inserting adds exactly one element |
| Ordering.InsertPermutes | scripts/analysis/bootstrap_fastrelax_analysis.py:75 | inserting adds the element and loses none |
| Ordering.InsertSorted | scripts/analysis/bootstrap_fastrelax_analysis.py:75 | inserting into a sorted list keeps it sorted |
| Ordering.InsertAbove | scripts/analysis/bootstrap_fastrelax_analysis.py:75 | inserting keeps every element above a common lower bound |
| Ordering.SortTriples | scripts/analysis/bootstrap_fastrelax_analysis.py:75 | sorting keeps the length |
| Ordering.SortTriplesSpec | scripts/analysis/bootstrap_fastrelax_analysis.py:75 | the sorted keys are a permutation of the keys, in order |
| Ordering.SortDistinct | scripts/analysis/bootstrap_fastrelax_analysis.py:75 | distinct keys sort into a strictly increasing list of the same keys |
| Ordering.DistinctCount | scripts/analysis/bootstrap_fastrelax_analysis.py:75 | a permutation of a list without repetitions has none |
| Ordering.MultisetAtMostOnce | scripts/analysis/bootstrap_fastrelax_analysis.py:75 | in a list without repetitions every element occurs at most once |
| Bootstrap.GroupOrder | scripts/analysis/bootstrap_fastrelax_analysis.py:75 | there is one visited key per distinct key |
| Bootstrap.GroupOrderSpec | scripts/analysis/bootstrap_fastrelax_analysis.py:75-77 | the groups are visited in strictly increasing key order, each key of a row exactly once |
| Bootstrap.GroupRows | scripts/analysis/bootstrap_fastrelax_analysis.py:75-77 | the grouping loop yields the sorted keys and, for each, its rows in original order |
| Bootstrap.GroupedInOrder | scripts/analysis/bootstrap_fastrelax_analysis.py:75-77 | the grouping of all rows, keys sorted, is the grouping the analysis visits |
| Bootstrap.GroupsPartition | scripts/analysis/bootstrap_fastrelax_analysis.py:75-77 | the groups partition the combined rows: each row is in the group of its key and no other, and together they hold every row exactly once |
| Bootstrap.GroupMergesTables | scripts/analysis/bootstrap_fastrelax_analysis.py:58-77 | rows with equal keys from different tables are merged: the group of the combined rows is the concatenation of the per-table groups |
| Bootstrap.RowValues | scripts/analysis/bootstrap_fastrelax_analysis.py:79 | a row contributes one value per replicate column |
| Bootstrap.Flatten | scripts/analysis/bootstrap_fastrelax_analysis.py:79 | `values.flatten()` of a group: rows × replicate columns values |
| Bootstrap.FlattenAt | scripts/analysis/bootstrap_fastrelax_analysis.py:79 | value j of row i sits at position i × columns + j |
| Bootstrap.FlattenRowMajor | scripts/analysis/bootstrap_fastrelax_analysis.py:79 | the flattened values are the rows' replicate values in row-major order, rows × columns of them |
| Bootstrap.FlattenConcat | scripts/analysis/bootstrap_fastrelax_analysis.py:79 | flattening a merged group gives its parts' values one after the other |
| Bootstrap.SummaryCounts | scripts/analysis/bootstrap_fastrelax_analysis.py:82-96 | `n_samples` is the size of the cleaned sample given to the bootstrap, at most rows × columns, and zero iff the statistics and the original mean are NaN |
| Bootstrap.Summarise | scripts/analysis/bootstrap_fastrelax_analysis.py:79-97 | a group's summary carries its key, and its bootstrap statistics, original mean and original std are NaN exactly when `n_samples` is zero |
| Bootstrap.SummariseGroup | scripts/analysis/bootstrap_fastrelax_analysis.py:79-97 | one iteration of the results loop computes the group's summary |
| Bootstrap.SummariesOf | scripts/analysis/bootstrap_fastrelax_analysis.py:77-97 | there is one summary per group key |
| Bootstrap.Summaries | scripts/analysis/bootstrap_fastrelax_analysis.py:77-97 | there is one summary per distinct key of the combined rows |
| Bootstrap.SummariseGroups | scripts/analysis/bootstrap_fastrelax_analysis.py:77-97 | the results loop computes the summary of every group, in visiting order |
| Bootstrap.Analyse | scripts/analysis/bootstrap_fastrelax_analysis.py:44-97 | the analysis stops iff no input file exists, and otherwise returns the summaries of the groups of the concatenated tables |

## Left out

- Plotting, figure styling (`set_plot_style`), saving figures, and all console printing: no computational content.
- CSV reading and writing, `os.path.exists`, `os.makedirs` and the path configuration: I/O. An input file is an `Option<Frame>`, `None` when it does not exist.
- Floating-point arithmetic: `np.mean`, `np.std`, `np.percentile`, `np.nanmean` and `np.nanstd` are uninterpreted parameters applied to the non-missing values.
- Bootstrap.Resample: `np.random.choice` is replaced by a parameter giving a natural number per draw, taken modulo the sample size; no distribution is modelled.
- `pd.to_numeric(errors='coerce')` and the numeric parsing of the replicate columns: cells arrive as already parsed `Option<Score>` values.
- MutantIds.IsDigit: `\d` on Python strings also matches non-ASCII decimal digits; only `0`-`9` are modelled.
- Bootstrap.GroupOrder: rows whose key contains a NaN cell, which `groupby` drops, cannot occur, because key cells are strings here.
- `str(...)` of non-string cells in `shorten_mutations`, `extract_mutant_id` and `clean_fn`: mutation and file-name cells are strings here.
- Bootstrap.BootstrapStats: `n_bootstrap` is a natural number. A negative count cannot be passed; the script only uses the default 1000.
- Python's `sorted`/`sort_values` of the printed results and the `melt` reshaping of the plotting script: they only feed the printout and the plots.
- The duplicate plotting script at the repository root: the same `FAILED` filter and `rep` column selection as modelled here.
- The grouping order: Python orders strings by code point and the model orders characters the same way; pandas' own sort is not modelled beyond that order.
- Grouping order of non-string keys: when the `group` column holds integers, `read_csv` reads it as numbers and `groupby` sorts it numerically (group 2 before group 10). Here every key cell is a string and sorts textually, so such tables give the result rows in a different order.
- Tables.Cell: rows are assumed to carry values only for the columns of their own table. A row holding a value for a column that only another table has would read that value, where `pd.concat` gives NaN.
- Bootstrap.PercentBounds: the percentile arguments are computed in exact reals, so the default level gives exactly 2.5 and 97.5. In floating point the lower one is 2.500000000000002.
- Bootstrap.Analyse: loaded tables with no rows give `Done([])`. The script then writes an empty result file and fails in its printout (line 104) on the missing `group` column. That printout is outside the model.
