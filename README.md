# College admission predictor: a Dafny model

This project models the domain logic of a college-admission counselling application. The application serves students of the ACPC (Gujarat engineering admissions).

- **Admission-chance estimator.** A student gives a rank, a counselling round and a category. For a college and branch, the estimator turns these into a chance label (High, Medium or Low) and a whole-number percentage. It uses the historical opening and closing ranks when records exist, and otherwise a heuristic on the branch cutoff, the placement rate and the college type (`mlPredictor.ts`).
- **Recommendation ranker.** Collects one entry per eligible college and branch pair. Each entry is scored by its chance, the placement rate, the average package and the annual fee. Entries come back sorted from the highest score down (`mlPredictor.ts`).
- **College filter.** With a positive rank, it lists the colleges of the ranked recommendations, each once, in ranked order. Without one, it filters colleges by fee ceiling, college type, selected institutes, institute-branch selections and branch availability. It also computes the chance for a branch named by text (`calculations.ts`).
- **Server store.** An in-memory store with one table per entity. Each table is keyed by an id drawn from its own counter. It answers queries on historical cutoffs, colleges, branches, choices and admins, and adds, re-prioritises and removes choices (`storage.ts`).
- **Comparison list.** The client's list of college and branch pairs placed side by side (`compareStore.ts`).

The Dafny modules are:

- `Schema`: records, enumerations, and the JavaScript conversions the code relies on, such as truthiness of optional numbers, `toString` and `split("-")[0]`;
- `Seqs`: `filter`, `find` and `map`;
- `Sorting`: an in-place insertion sort on an array, which serves as `Array.prototype.sort`;
- `MlPredictor`, `Calculations`, `Storage` and `CompareStore`: one per source file.

Modelling choices:

- Percentages are exact reals. `Math.round(x)` is `Floor(x + 1/2)`.
- A JavaScript map lists its entries in insertion order. Ids come from a counter that only grows, and an update keeps an entry's place. So a table's listing is its rows in ascending key order (`Storage.Rows`).
- The module-level `branches` variable of `calculations.ts` is a field of the class `Calculations.Calculator`. The store's fields are fields of `Storage.MemStorage`.

## Model

| member | source | states |
|---|---|---|
| Schema.TextBeforeDash | client/src/lib/utils/calculations.ts:99 | `split("-")[0]` is the prefix of the entry up to its first dash: the whole entry when it has no dash, otherwise a dash-free prefix followed by a dash |
| Schema.TextBeforeDashOfJoin | client/src/lib/utils/calculations.ts:98-101 | the part before the first dash of `a + "-" + b` is `a` whenever `a` has no dash |
| Schema.InstituteBranchKeyNamesCollege | client/src/lib/utils/calculations.ts:98-101 | an entry "collegeId-branchId" built from a non-negative college id yields that id's text as its college part |
| Sorting.InsertionSort | client/src/lib/utils/mlPredictor.ts:190-191 | sorting in place leaves the array ordered by the comparator and a permutation of its old contents |
| Sorting.SortSeq | client/src/lib/utils/mlPredictor.ts:190-191 | the sorted copy is ordered by the comparator and is a permutation of the input |
| MlPredictor.MathRound | client/src/lib/utils/mlPredictor.ts:85 | `Math.round` gives the integer within one half of the value, with halves rounded up |
| MlPredictor.Labelled | client/src/lib/utils/mlPredictor.ts:80-85 | the label comes from the unrounded percentage, and the reported percentage is that value rounded |
| MlPredictor.LabelledIsConsistent | client/src/lib/utils/mlPredictor.ts:80-85 | a label and a rounded percentage agree on the 70 and 40 thresholds, except at exactly 70 or 40 reached by rounding up |
| MlPredictor.RelevantData | client/src/lib/utils/mlPredictor.ts:51-57 | the relevant records are exactly the records with this college, branch, round and category, each kept as often as it occurs in the table |
| MlPredictor.SumOpeningAtMostSumClosing | client/src/lib/utils/mlPredictor.ts:66-67 | if every record opens at or below its closing rank, the summed opening ranks are at most the summed closing ranks |
| MlPredictor.AveragesOrdered | client/src/lib/utils/mlPredictor.ts:66-67 | records that each open at or below their closing rank have an average opening rank at or below the average closing rank |
| MlPredictor.HistoricalPercentage | client/src/lib/utils/mlPredictor.ts:74-78 | strictly above the average opening rank and at or below the average closing rank, the interpolated percentage lies in [35, 95) |
| MlPredictor.HistoricalDecision | client/src/lib/utils/mlPredictor.ts:70-86 | at or below the average opening rank the result is High 95; above the average closing rank it is Low 15; in between, the label is the unrounded interpolation's and the percentage is that value rounded, between 35 and 95; always 15..95 and label-consistent |
| MlPredictor.EqualAveragesIsStep | client/src/lib/utils/mlPredictor.ts:70-78 | when the two averages are equal the rule never divides: it returns High 95 or Low 15 |
| MlPredictor.FallbackPercentage | client/src/lib/utils/mlPredictor.ts:113-114 | between 0.6 and 1.1 times the adjusted cutoff, the cutoff is positive and the percentage lies in [40, 90) |
| MlPredictor.FallbackCalculation | client/src/lib/utils/mlPredictor.ts:92-123 | a rank at or below 0.6 times the adjusted cutoff gives High 90; above 1.1 times it gives Low 20; in between, the label is the unrounded scale's and the percentage is that value rounded; Low occurs only as Low 20; always 20..90 and label-consistent |
| MlPredictor.PredictAdmissionChance | client/src/lib/utils/mlPredictor.ts:42-87 | no rank gives Medium 50; no relevant record gives the fallback; with relevant records, a rank at or below their average opening rank gives High 95, one above their average closing rank gives Low 15, and one in between gives the unrounded interpolation's label with that value rounded; every result is 15..95 and label-consistent |
| MlPredictor.PredictionFromHistory | client/src/lib/utils/mlPredictor.ts:64-86 | with a rank and relevant records, the result is the decision rule on the records' average opening and closing ranks |
| MlPredictor.PredictionIgnoresOtherFilters | client/src/lib/utils/mlPredictor.ts:47-57 | filters that agree on rank, round and category give the same estimate |
| MlPredictor.CollegeBranches | client/src/lib/utils/mlPredictor.ts:152-156 | the branches kept for a college are exactly those of that college with a selected name (or no names selected) and the requested course |
| MlPredictor.RecsForCount | client/src/lib/utils/mlPredictor.ts:158-186 | the entries for one college hold each branch as often as it occurs, paired with its estimated chance, and nothing else |
| MlPredictor.CandidatesCount | client/src/lib/utils/mlPredictor.ts:142-187 | an entry is collected (occurrences of its college) times (occurrences of its branch) times when both pass the filters and its chance is the estimate, and otherwise never |
| MlPredictor.CandidatesMembership | client/src/lib/utils/mlPredictor.ts:142-187 | an entry is collected if and only if its college and branch are inputs that pass the filters and its chance is the estimate |
| MlPredictor.ComputeScore | client/src/lib/utils/mlPredictor.ts:163-178 | the score is the percentage, plus half a truthy placement rate, plus a truthy average package over 200000, minus the fee over 50000 |
| MlPredictor.ScoreBranches | client/src/lib/utils/mlPredictor.ts:158-186 | the inner loop yields the entries for the branches in order, each carrying its score |
| MlPredictor.GetRankedRecommendations | client/src/lib/utils/mlPredictor.ts:128-193 | without a rank the list is empty; otherwise it is a permutation of the collected entries, ordered by score from highest to lowest |
| MlPredictor.FallbackExample | client/src/lib/utils/mlPredictor.ts:97-109 | a Government college with placement rate 90 and a branch cutoff of 1000 has an adjusted cutoff of 990, and rank 500 gives High 90 |
| MlPredictor.LabelBeforeRounding | client/src/lib/utils/mlPredictor.ts:74-85 | averages 100 and 700 with rank 354 give 69.6 percent, reported as 70 with the label Medium |
| Calculations.RankPercentage | client/src/lib/utils/calculations.ts:25-29 | the clamped rank percentage is in [0, 100]: 100 up to rank 1000, 0 from rank 1500, and linear in between |
| Calculations.UnmatchedPercentage | client/src/lib/utils/calculations.ts:24-30 | weighted by a placement weight in [0, 1], the percentage stays in [0, 100]; up to rank 1000 it is 100 times the weight |
| Calculations.PlacementWeightInUnitInterval | client/src/lib/utils/calculations.ts:24 | a placement rate between 0 and 100, or none, gives a weight between 0 and 1 |
| Calculations.UnmatchedChance | client/src/lib/utils/calculations.ts:19-40 | for a branch not found: no rank gives Medium 50; otherwise the label is the unrounded weighted percentage's and the percentage is that value rounded; always label-consistent |
| Calculations.UnmatchedChanceInRange | client/src/lib/utils/calculations.ts:24-39 | with a placement rate between 0 and 100, the reported percentage lies in [0, 100] |
| Calculations.FilterWithoutRank | client/src/lib/utils/calculations.ts:78-106 | without a rank, the kept colleges are exactly those passing the fee, type, institute, institute-branch and branch checks, each as often as in the input and in input order |
| Calculations.FeeCeilingExcludes | client/src/lib/utils/calculations.ts:80 | a college over a non-zero fee ceiling is never kept, whatever the other checks say |
| Calculations.CollegeWithoutBranchesExcluded | client/src/lib/utils/calculations.ts:84-89 | a college with no branch in the stored branches is never kept |
| Calculations.InstituteBranchEntryIgnoresBranch | client/src/lib/utils/calculations.ts:97-103 | an entry "collegeId-branchId" selects the college whatever its branch part |
| Calculations.FirstPerCollegeDistinct | client/src/lib/utils/calculations.ts:65-74 | the kept colleges have pairwise distinct ids, none of them already seen |
| Calculations.FirstPerCollegeFromRecs | client/src/lib/utils/calculations.ts:65-74 | every kept college is the college of some recommendation |
| Calculations.FirstPerCollegeComplete | client/src/lib/utils/calculations.ts:65-74 | every college id of the recommendations that was not already seen is kept |
| Calculations.UniqueColleges | client/src/lib/utils/calculations.ts:65-74 | the loop with the set of seen ids keeps the first college of each id, in order: the ids are distinct, each comes from a recommendation, and none is missed |
| Calculations.Calculator.constructor | client/src/lib/utils/calculations.ts:50 | the stored branches start empty, and the estimator reads the shipped table |
| Calculations.Calculator.CalculateAdmissionChance | client/src/lib/utils/calculations.ts:11-45 | the first stored branch with that name and college gets the estimator's result; with no such branch, the rank-and-placement formula is used |
| Calculations.Calculator.FilterColleges | client/src/lib/utils/calculations.ts:52-107 | stores the branches. With a positive rank, returns the first college of each id from a ranking of the collected entries; each returned college is an input that passes the college checks and no id repeats. Otherwise returns the basic filter's result |
| Storage.RowsMembership | server/storage.ts:44 | a value is listed exactly when it is stored under a key between 1 and the counter |
| Storage.RowsAscending | server/storage.ts:260-266 | in a table keyed by its rows' ids, the listing is in strictly ascending id order, within [1, counter) |
| Storage.RowsIgnoreHighKeys | server/storage.ts:44 | keys at or above the counter do not affect the listing |
| Storage.RowsAppend | server/storage.ts:268-273 | storing a row under the counter's key appends it to the listing |
| Storage.ChoiceRowsReprioritize | server/storage.ts:279-285 | giving the stored choice a new priority changes its row of the listing and no other |
| Storage.ChoiceRowsRemove | server/storage.ts:275-277 | deleting a key removes exactly the rows with that id from the listing and keeps the others in order |
| Storage.NarrowBy | server/storage.ts:47-61 | one `if (condition) filter` step keeps exactly the rows passing the conditions applied so far, each as often as stored |
| Storage.ApplyConditions | server/storage.ts:44-62 | the chain of condition filters keeps the rows passing every present and truthy condition, each as often as stored |
| Storage.MinOf | server/storage.ts:248 | `Math.min` is at or below every element and is either one of them or Infinity |
| Storage.CutoffOrInfinity | server/storage.ts:248 | a finite `cutoffRank \|\| Infinity` is never 0 |
| Storage.CollegeMinCutoff | server/storage.ts:246-249 | a finite minimum cutoff of a college is never 0, so the later `\|\| Infinity` keeps it |
| Storage.CollegeMinCutoffIsMinimum | server/storage.ts:246-249 | no branch of the college has a smaller cutoff, and a finite minimum is some branch's cutoff |
| Storage.MemStorage.constructor | server/storage.ts:34-41 | the given colleges and branches are stored numbered 1, 2, … in order, the other tables are empty, and every counter is one past its table |
| Storage.MemStorage.GetHistoricalCutoffs | server/storage.ts:43-65 | the result is a permutation of the stored rows passing the conditions, ordered by year from newest and then by round; every row is stored under its id |
| Storage.MemStorage.GetHistoricalCutoffsForCollegeAndBranch | server/storage.ts:67-72 | the query with only a college and a branch condition; every row returned has that college and that branch when they are non-zero |
| Storage.MemStorage.GetColleges | server/storage.ts:240-258 | a permutation of the stored colleges, ordered by their lowest branch cutoff, with colleges that have none last |
| Storage.MemStorage.GetBranches | server/storage.ts:260-262 | exactly the stored branches, in ascending id order |
| Storage.MemStorage.GetChoices | server/storage.ts:264-266 | exactly the stored choices, in ascending id order |
| Storage.MemStorage.AddChoice | server/storage.ts:268-273 | the choice gets the counter's id, which is above every stored id. The counter moves on by one, the choice is appended to the listing, and nothing else changes |
| Storage.MemStorage.RemoveChoice | server/storage.ts:275-277 | only that key is deleted, a missing key changes nothing, and the listing loses exactly that row |
| Storage.MemStorage.UpdateChoicePriority | server/storage.ts:279-285 | a missing id fails with "Choice not found" and changes nothing; otherwise only that choice's priority changes, in place |
| Storage.MemStorage.GetAdminByInstituteCode | server/storage.ts:287-289 | the first stored admin with that code, or none exactly when no stored admin has it |
| Storage.MemStorage.CreateAdmin | server/storage.ts:291-296 | the admin gets the counter's id, which is above every stored id. The counter moves on by one, the admin is appended to the listing, and nothing else changes |
| Storage.MemStorage.AddHistoricalCutoff | server/storage.ts:75-80 | the row gets the counter's id, which is above every stored id. The counter moves on by one, the row is appended to the listing, and nothing else changes |
| CompareStore.WithoutPair | client/src/lib/stores/compareStore.ts:16-20 | the items left are exactly those not naming the pair, each as often as before |
| CompareStore.WithoutPairKeepsOrder | client/src/lib/stores/compareStore.ts:16-20 | removal keeps the surviving items in their order |
| CompareStore.WithoutAbsentPair | client/src/lib/stores/compareStore.ts:16-20 | removing a pair that is not listed changes nothing |
| CompareStore.RemoveUndoesAdd | client/src/lib/stores/compareStore.ts:13-20 | removing a pair just added undoes the addition when the pair was not already listed |
| CompareStore.WithoutPairIdempotent | client/src/lib/stores/compareStore.ts:16-20 | removing a pair twice is the same as removing it once |
| CompareStore.CompareList.constructor | client/src/lib/stores/compareStore.ts:12 | the list starts empty |
| CompareStore.CompareList.AddCollege | client/src/lib/stores/compareStore.ts:13-15 | the pair is appended, even when it is already listed |
| CompareStore.CompareList.RemoveCollege | client/src/lib/stores/compareStore.ts:16-20 | every item naming the pair is removed and the rest keep their order |

## Behaviour worth knowing

- **Labels come from the unrounded percentage.** The label is chosen before `Math.round`, so values in [69.5, 70) are reported as 70 with the label Medium and values in [39.5, 40) as 40 with the label Low: 69.6 becomes Medium 70 (`MlPredictor.LabelBeforeRounding`). `LabelConsistent` admits exactly these two cases.
- **Equal averages need no special case.** When the average opening and closing ranks are equal, the first two branches of the historical rule already cover every rank, so the interpolation never divides by zero (`MlPredictor.EqualAveragesIsStep`).
- **Only an absent or zero rank means "no rank".** The estimator tests `acpcRank || 0`, so a negative rank is estimated like any other and the ranker runs on it; `filterColleges` tests `acpcRank > 0` and sends a negative rank to the basic filter.
- **Branch check without a rank.** With no branch names selected, any branch of the college passes, whatever its course (`Calculations.HasMatchingBranch`).
- **No de-duplication without a rank.** The basic filter keeps every occurrence of a college that passes (`Calculations.FilterWithoutRank`).
- **Percentages above 100.** A placement rate above 100 makes the unmatched-branch formula exceed 100; its range is proved for rates between 0 and 100 (`Calculations.UnmatchedChanceInRange`).

## Left out

- `MemStorage.initializeMockData` draws random cutoffs with `Math.random`, so it is not modelled. The constructor takes the college and branch fixtures as parameters and starts with no historical cutoffs.
- The estimator's constant table is `MlPredictor.HistoricalTable`. The estimator and the ranker take the table as a parameter, and `Calculations.Calculator` binds it to the shipped table.
- Floating point is not modelled; all arithmetic is exact over reals. Ranks, fees and ids are integers, and fractional ranks are not modelled.
- `localeCompare` on round names is the fixed order "1" < "2" < "3" < "Mock".
- College types, courses, rounds and categories are closed enumerations. Strings outside them, and empty strings, are not modelled.
- `Storage.MemStorage.GetColleges` and `Storage.MemStorage.GetHistoricalCutoffs`, like `MlPredictor.GetRankedRecommendations`: sort stability is not stated. Ties may come back in any order, which is all `Array.prototype.sort`'s contract promised before ES2019.
- `Storage.MemStorage.GetColleges`: the comparator `aCutoff - bCutoff` is `NaN` when both cutoffs are `Infinity`. It is modelled as a tie, which is how `sort` treats a `NaN` result.
- Promises, `async` and the HTTP routes are not modelled; the store's methods are synchronous.
- The React state container (`zustand`) behind the comparison list is not modelled; its state is a class field.
- Password hashing, the chat bot and the user interface are not part of this model.
- Calling `calculateAdmissionChance` before `filterColleges` has set the module variable is modelled as searching the empty initial `branches`.
