# Participatory multiverse: decision table, subgroup combinations, run modes, node strings

This project models the combinatorial core of a fairness "multiverse
analysis". In this analysis an ML pipeline is re-run under every combination
of analytic decisions. A decision (a *dimension*) has a name and a list of
options. An option is either an atomic token or a compound option: a nested
list that counts as one joint option. A *universe* chooses one option for
every decision. The *grid* of all universes has as many members as the
product of the option counts.

Three source files are modelled:

- `multiverse.py` (module `Multiverse`):
  - `calculate_combinations`, written as a method with the source's `for`
    loop and proved against a functional specification of
    `itertools.combinations` (module `Combinatorics`);
  - the nine race groups and the 511 `exclude_subgroups` option tokens
    `keep-names_race_<g1>-<g2>-…` built from them;
  - the `config["dimensions"]` table (module `Dimensions` holds the data
    types). The model proves that the table has unique names and non-empty,
    duplicate-free option lists, and that its grid has 16352 universes.
- `multiverse_analysis.py` (module `MultiverseAnalysis`):
  - its duplicate `calculate_combinations`, and its second copy of the
    decision table, which is proved equal to the first;
  - the `--mode` choices and default;
  - `new_run=(args.mode != "continue")`;
  - the order of calls the script makes in each mode, and which universes
    each mode runs the pipeline on.
- `interactive-analysis/src/helpers.js` (module `Helpers`): `mapDecisionNames`
  and `parseIndividualDecisionString`. The JavaScript `split(":")` and
  `replaceAll` are modelled in module `Strings`, which also holds Python's
  `'-'.join`.

The `--mode` help text (multiverse_analysis.py:16) says that `test` runs "a
small subset of universes". The code (multiverse_analysis.py:140-141) visits
`grid[0]` and then `grid[1]`, and raises IndexError on a grid of fewer than
two universes. `RunPlan` models the code, the IndexError included
(`GridIndexError`).

In helpers.js, a node string that has no `:` and is not `START` leaves
`value` undefined, so `value.startsWith` throws a TypeError. The model
returns the error value `Err(UndefinedValue)` for such a node.

## Model

| member | source | states |
|---|---|---|
| Multiverse.CalculateCombinations | multiverse.py:3-8 | The loop's result is the specification `AllCombinations`: the combinations of size 1, then size 2, … up to `len(items)`, each block in itertools order. It has 2^n − 1 entries. Each entry is an order-preserving subsequence of 1..n items. Sizes never decrease. Distinct items give distinct combinations. |
| Combinatorics.Positions | multiverse.py:7 | Every index tuple `itertools.combinations` yields for size r is strictly increasing, has r entries and stays inside the index range. |
| Combinatorics.PositionsComplete | multiverse.py:7 | The converse: every strictly increasing r-tuple of positions in range is yielded. |
| Combinatorics.PositionsCount | multiverse.py:7 | `combinations(items, r)` yields exactly C(n, r) tuples. |
| Combinatorics.PositionsLexSorted | multiverse.py:7 | The tuples come in strictly increasing lexicographic order, as itertools documents. |
| Combinatorics.PositionsDistinct | multiverse.py:7 | No index tuple is yielded twice. |
| Combinatorics.PositionsAll | multiverse.py:7 | For r = n the only tuple is (0, 1, …, n−1). |
| Combinatorics.SelectIsSubsequence | multiverse.py:7 | Picking items at an increasing index tuple yields a subsequence of the items, order kept. |
| Combinatorics.SelectInjective | multiverse.py:7 | Over distinct items, different index tuples pick different combinations. |
| Combinatorics.CombinationsCount | multiverse.py:7 | The size-r block has C(n, r) combinations. |
| Combinatorics.CombinationsShape | multiverse.py:7 | Each combination in the size-r block has r items and is a subsequence of the items. |
| Combinatorics.CombinationsDistinct | multiverse.py:7 | Over distinct items, the size-r block has no repeats. |
| Combinatorics.CombinationsComplete | multiverse.py:7 | `Combinations` (`itertools.combinations(items, r)` as a list) contains the items at every increasing r-tuple of positions. |
| Combinatorics.BinomialRowSum | multiverse.py:6-7 | The binomials of one row sum to 2^n, which counts all blocks together. |
| Combinatorics.UpToCount | multiverse.py:6-7 | After the blocks for sizes 1..k the list holds (sum of C(n, i) for i ≤ k) − 1 combinations. |
| Combinatorics.UpToShape | multiverse.py:6-7 | After k loop rounds every entry has 1..k items and is a subsequence, with sizes non-decreasing. |
| Combinatorics.UpToDistinct | multiverse.py:6-7 | Appending the blocks keeps the list free of repeats, because blocks of different sizes cannot share an entry. |
| Combinatorics.UpToFirst | multiverse.py:6-7 | The list's first entry is the one-item combination `(items[0],)`. |
| Combinatorics.UpToComplete | multiverse.py:6-7 | After k loop rounds (`UpTo`, the list after the blocks for sizes 1..k) the list contains every combination of 1..k positions. |
| Combinatorics.AllCombinationsCount | multiverse.py:3-8 | `len(calculate_combinations(items)) == 2**len(items) - 1`. |
| Combinatorics.AllCombinationsShape | multiverse.py:3-8 | Every result entry is a non-empty subsequence of the items, and sizes never decrease along the list. |
| Combinatorics.AllCombinationsEnds | multiverse.py:3-8 | For non-empty items the first entry is `(items[0],)` and the last is all of `items`. |
| Combinatorics.AllCombinationsDistinct | multiverse.py:3-8 | Distinct items give pairwise distinct combinations. |
| Combinatorics.AllCombinationsComplete | multiverse.py:3-8 | No combination is missed: for every increasing tuple of one or more positions, `AllCombinations` (the loop's result) contains the items at those positions. |
| Combinatorics.SubsequenceElements | multiverse.py:7 | Every member of a combination is one of the items. |
| Strings.Split | interactive-analysis/src/helpers.js:13-14 | `split` returns at least one part, no part contains the separator, and joining the parts gives back the input. |
| Strings.SplitWithoutSeparator | interactive-analysis/src/helpers.js:13-14 | A string without the separator splits into itself alone. |
| Strings.SplitAtFirstSeparator | interactive-analysis/src/helpers.js:13-14 | The first part is the text before the first separator, and the rest is split the same way. |
| Strings.JoinInjective | multiverse.py:12 | Joining non-empty lists of separator-free strings is injective. |
| Strings.SplitJoin | multiverse.py:12 | Splitting a join of separator-free strings returns the strings. |
| Strings.ReplaceAll | interactive-analysis/src/helpers.js:29-31 | After `replaceAll(c, rep)` no `c` is left when `rep` has none. |
| Strings.ReplaceAllAppend | interactive-analysis/src/helpers.js:29-31 | `replaceAll` works piecewise over a concatenation. |
| Strings.CountAppend | interactive-analysis/src/helpers.js:29-31 | Occurrence counts add up over a concatenation. |
| Multiverse.JoinedOptionDecodes | multiverse.py:12 | Every token starts with `keep-names_race_`. Splitting the rest at `-` gives back the combination when no group contains `-`. |
| Multiverse.JoinedOptions | multiverse.py:12 | One token per combination, in order. Every token (`JoinedOption`, the lambda: the prefix, then `Join`, the `'-'.join`) starts with `keep-names_race_`. Splitting the rest of a token at `-` gives back its combination when the combination is non-empty and hyphen-free. |
| Multiverse.JoinedOptionsDistinct | multiverse.py:12 | Distinct non-empty combinations of hyphen-free groups map to distinct tokens. |
| Multiverse.GroupsRac1pFacts | multiverse.py:10 | There are nine race groups, pairwise distinct, none containing `-`. |
| Multiverse.ExcludeSubgroupsCount | multiverse.py:10-12 | `combinations_rac1p_joined` (`CombinationsRac1pJoined`) has 511 tokens. |
| Multiverse.ExcludeSubgroupsOptions | multiverse.py:10-12 | The 511 tokens are pairwise distinct and all carry the `keep-names_race_` prefix. |
| Dimensions.AtomsDistinct | multiverse.py:64 | `Atoms` turns a list of tokens used as an option list into one atomic option per token. Distinct tokens give distinct options. |
| Multiverse.ConfigWellFormed | multiverse.py:14-85 | The decision table has 13 distinct names. Every option list is non-empty and has no repeats. |
| Multiverse.ConfigUniqueNames | multiverse.py:14-85 | The 13 decision names, in declaration order, are pairwise distinct. |
| Multiverse.ConfigNamesListed | multiverse.py:14-85 | `Names` of `ConfigDimensions` (the table, in declaration order) is exactly the list of the 13 keys of `config["dimensions"]`. |
| Multiverse.ConfigValidOptions | multiverse.py:14-85 | Every decision has at least one option and no repeated option. |
| Multiverse.ConfigGridSize | multiverse.py:14-85 | The product of the option counts is 1·1·1·1·1·4·4·1·1·2·511·1·1 = 16352. Each compound option counts once. |
| MultiverseAnalysis.CalculateCombinations | multiverse_analysis.py:44-49 | The script's copy computes the same specification: 2^n − 1 combinations, distinct for distinct items. |
| MultiverseAnalysis.SameDimensionsAsConfig | multiverse_analysis.py:51-125 | The table passed to `MultiverseAnalysis` equals `config["dimensions"]` of multiverse.py, name for name and option for option. So it is well formed and spans 16352 universes. |
| MultiverseAnalysis.ParseMode | multiverse_analysis.py:10-20 | An absent `--mode` means `full`. A value is accepted exactly when it is `full`, `continue` or `test`. A rejection reports the offending value. |
| MultiverseAnalysis.ParseModeName | multiverse_analysis.py:18 | Each mode's name parses back to that mode, and no other string parses to it. |
| MultiverseAnalysis.NewRunByMode | multiverse_analysis.py:127 | For every accepted argument, `new_run` (`NewRun` of `ModeArgument`, which is `args.mode` with its default `full`) is true exactly when the mode is not `continue`. |
| MultiverseAnalysis.RunPlan | multiverse_analysis.py:131-157 | Every mode first builds the analysis with `new_run = mode != continue` and generates the grid. The script completes unless `test` meets a grid of fewer than two universes. A completed script ends with `aggregate_data` then `check_missing_universes`. `test` never calls `examine_multiverse`. |
| MultiverseAnalysis.RunPlanVisits | multiverse_analysis.py:138-153 | `full` runs the pipeline on the whole grid and `continue` on exactly the missing universes. `test` runs `grid[0]` then `grid[1]`, or as much of that as exists before the IndexError. |
| MultiverseAnalysis.TestPlanVisits | multiverse_analysis.py:138-141 | In `test` mode the visited universes are `grid[0]` and then `grid[1]`, or what exists of them. |
| MultiverseAnalysis.VisitedAppend | multiverse_analysis.py:138-157 | The universes visited by consecutive steps concatenate. |
| MultiverseAnalysis.VisitedFrame | multiverse_analysis.py:131-157 | Setup steps and closing steps run no universe. |
| Helpers.StripSortPrefix | interactive-analysis/src/helpers.js:23-28 | The result is a suffix of the value: two characters shorter after `NA`, otherwise one shorter (empty stays empty). |
| Helpers.ParseIndividualDecisionString | interactive-analysis/src/helpers.js:12-34 | An error happens only when the node has no `:`. A result lacks a value exactly when its key is `START`. A returned value never contains `_`. |
| Helpers.FullNameNotStart | interactive-analysis/src/helpers.js:15-21 | Mapping a key that is not `START` never produces `START`. |
| Helpers.FullNameIdempotent | interactive-analysis/src/helpers.js:1-10 | No full name in `mapDecisionNames` is itself an abbreviation, so mapping a key twice (`FullName`) gives the same name as mapping it once. |
| Helpers.ReplaceTwice | interactive-analysis/src/helpers.js:29-31 | The two `replaceAll` passes equal one left-to-right rewrite (`Rewrite`): `-` becomes `; ` and `_` becomes `-`. The second pass never touches a hyphen the first one produced. |
| Helpers.RewriteAppend | interactive-analysis/src/helpers.js:29-31 | The rewrite works piecewise over a concatenation. |
| Helpers.RewriteShape | interactive-analysis/src/helpers.js:29-31 | The rewritten value has no `_`. Its length is the original length plus the number of `-`. It has one `-` per original `_`. |
| Helpers.RewriteKeepsPlainText | interactive-analysis/src/helpers.js:29-31 | A value with neither `-` nor `_` is displayed unchanged. |
| Helpers.StartNode | interactive-analysis/src/helpers.js:13-17 | `START`, or any node starting with `START:`, returns `{ key: "START" }` without value. |
| Helpers.OnlyStartNodeLacksValue | interactive-analysis/src/helpers.js:12-34 | A successful result without value comes only from such a node. |
| Helpers.ParseKeyValue | interactive-analysis/src/helpers.js:12-34 | For `KEY:VALUE` with KEY not `START`, the key is mapped through `mapDecisionNames` (unknown keys kept) and the value is stripped of its sort prefix and rewritten. Text after a second `:` is ignored. |
| Helpers.MissingValue | interactive-analysis/src/helpers.js:13-28 | A node without `:` fails (the TypeError on an undefined value) exactly when it is not `START`. |
| Combinatorics.Combinations | multiverse.py:7 | `list(itertools.combinations(items, r))`: the items at each position tuple of `Positions`, in that order. Its properties are the `Combinations…` lemmas. |
| Combinatorics.UpTo | multiverse.py:6-7 | The list after the loop rounds for sizes 1..k, which is the loop invariant of `CalculateCombinations`. Its properties are the `UpTo…` lemmas. |
| Combinatorics.AllCombinations | multiverse.py:3-8 | What `calculate_combinations` returns: `UpTo` for all sizes. Its properties are the `AllCombinations…` lemmas. |
| Strings.Join | multiverse.py:12 | Python's `'-'.join`. `SplitJoin` and `JoinInjective` state its properties. |
| Multiverse.JoinedOption | multiverse.py:12 | The lambda `'keep-names_race_' + '-'.join(x)`. `JoinedOptionDecodes` states its properties. |
| Multiverse.CombinationsRac1pJoined | multiverse.py:11-12 | `combinations_rac1p_joined`. `ExcludeSubgroupsCount` and `ExcludeSubgroupsOptions` state its properties. |
| MultiverseAnalysis.CombinationsRac1pJoined | multiverse_analysis.py:52-53 | The script's copy. `SameDimensionsAsConfig` shows it equals the first copy. |
| Multiverse.ConfigDimensions | multiverse.py:14-85 | `config["dimensions"]`, its live options in declaration order. `ConfigWellFormed` and `ConfigGridSize` state its properties. |
| MultiverseAnalysis.NewRun | multiverse_analysis.py:127 | `args.mode != "continue"`. `NewRunByMode` states its properties. |
| MultiverseAnalysis.ModeArgument | multiverse_analysis.py:19 | `args.mode`: the given value, or `full` by default. `NewRunByMode` states its properties. |
| Helpers.MapDecisionNames | interactive-analysis/src/helpers.js:1-10 | The eight abbreviations and their full names. `FullNameIdempotent` and `FullNameNotStart` state its properties. |
| Helpers.FullName | interactive-analysis/src/helpers.js:19-21 | `key in mapDecisionNames ? mapDecisionNames[key] : key`. `FullNameIdempotent` and `FullNameNotStart` state its properties. |
| Helpers.Rewrite | interactive-analysis/src/helpers.js:29-31 | The one-pass reference for the two `replaceAll` calls. `ReplaceTwice` and `RewriteShape` state its properties. |

## Left out

- The `MultiverseAnalysis` class (grid generation, universe identifiers, the run ledger, visiting universes, aggregation) is not part of this model. Its calls appear only as steps of `RunPlan`. `generate_grid`'s result and `check_missing_universes`'s result are inputs.
- The argparse machinery beyond `--mode` is left out: help text, `--output-dir` with `verify_dir`, and `--seed`. It only forwards values to the analysis object or touches the file system.
- `print` calls are output only and are left out.
- `fairness_multiverse/IPCKernelManager.py` is left out. It is a Jupyter kernel manager whose constructor creates a file-system path and a random UUID.
- Commented-out options in both decision tables are left out, because Python ignores them. The 13 decisions and their live options are modelled exactly.
- The two longest race-group names are written as concatenations of shorter literals. Their values are the same characters as the source's.
- A Python dict literal with a repeated key silently keeps the last entry. The model keeps each table as the ordered list of its entries, and `ConfigUniqueNames` proves that no name repeats.
- `FullName`: the JavaScript `key in mapDecisionNames` also finds keys inherited through the object's prototype chain (for example `toString`). The model treats `mapDecisionNames` as a plain map of its eight entries.
- JavaScript strings are UTF-16 code-unit sequences. The model uses Dafny `char` sequences and treats the `split`, `slice`, `startsWith` and `replaceAll` arguments, which are all ASCII, character by character.
- The JavaScript TypeError is modelled as `Err(UndefinedValue)`; the exception itself is not modelled.
- Python's IndexError in `test` mode is modelled as the `GridIndexError` outcome after the steps that ran.
