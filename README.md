# Recommender and three-way quicksort, modelled in Dafny

The system is a small category-based recommender with two parts:

- **Knowledge base.** It is read from a text file. Each line names a page followed by its categories, separated by single spaces. `load_knowlege` builds two indexes from it: pages to their categories, and categories to their pages.
- **Query.** `recommend` takes a list of categories and gathers every page that one of them lists. It stores one score per page: `similarity` is evaluated each time a queried category surfaces the page, and only the first result is kept. The score is `1000 * (2f / (|query| + |page categories| - f))` in integer division, where f counts the query entries the page has. It then sorts the list of scores with a Sedgewick–Bentley three-way quicksort that carries an array of keys along, and returns the keys.

The project has two modules:

- `sbsqsort.dfy` (module `Sbsqsort`) models `src/sbsqsort.rs` imperatively:
  - the sort works in place on an `array<int>` of values and an `array<K>` of keys;
  - each phase of `quicksort_helper` is a method with its own contract: scans, exchange step, partition loop, pivot placement and the two rotation loops;
  - after one partition step, a run of pivot-equal elements sits in the middle, with everything below it at most the pivot and everything above it at least the pivot. The rotation bounds `k < p` and `k > q` can leave one pivot-equal element in each sub-range: the contracts of `RotateLow` and `RotateHigh` fix where the cursors end, one element short of each run. The sort is proved correct anyway. Everything outside the range is left unchanged.
- `engine.dfy` (module `Engine`) models `src/engine.rs`:
  - the knowledge base is a `datatype` of two `map<string, set<string>>`;
  - `load_knowlege`, the ranking loop of `recommend` and the counting loops of `similarity` are methods with loops, each proved equal to a specification function (`Load`, `SimilarityScore`, `IsCandidate`);
  - lemmas about those functions state what the knowledge base and the query promise.

Design choices that shape the model:

- **Comparator.** `quicksort_by` takes any comparator. The only caller, `quicksort`, uses `Ord::cmp` on `u64`, so the model fixes the order to `<=` on `int`.
- **The pivot reference.** The `unsafe` raw reference to `arr[right]` is modelled by a copy of its value. A loop invariant proves that the slot does not change while the partition loop runs.
- **The straddle swap.** The swap on line 31 moves values but not keys. It is modelled as written. A flag `mirrorStraddle` selects a corrected variant that swaps the keys too (see Findings).
- **The knowledge file.** It becomes a sequence of lines, and `line.split(" ")` becomes `Split`.
- **Set iteration.** Iteration over a `BTreeSet` is modelled as an arbitrary order. Every proved fact holds for any order. The keys of a `BTreeMap` are collected in ascending order, which is modelled with `LexLess`, because that order reaches the sort.
- **The query.** It is a `seq<string>`, so repeated entries count, as they do in `similarity`. A page's categories are a `set<string>`.

Where the code and its comments disagree, the model follows the code:

- The comment on line 122 calls `similarity` a Jaccard index. The code instead returns a multiple of 1000, 2000 for a perfect match, and more for a query with repeated entries.
- The comment on line 88 says `recommend` finds the most closely related pages. The sort is ascending, so the keys are not ordered best first.

## Model

| member | source | states |
|---|---|---|
| Sbsqsort.Swap | src/sbsqsort.rs:31 | `arr.swap(x, y)`: the two slots are exchanged, every other slot is unchanged, and the multiset of values is kept |
| Sbsqsort.SwapBoth | src/sbsqsort.rs:34-35 | a swap applied to both arrays exchanges the same two slots in each, keeps both multisets and keeps every (value, key) pair |
| Sbsqsort.StraddleSwapSplitsPair | src/sbsqsort.rs:31 | swapping two different values without swapping their different keys removes the pair (a[x], k[x]) from the multiset of pairs |
| Sbsqsort.ScanLow | src/sbsqsort.rs:17-20 | the upward scan stops at the first slot not below the pivot, and every slot it passed is below the pivot |
| Sbsqsort.ScanHigh | src/sbsqsort.rs:21-27 | the downward scan stops at `left` or at the first slot not above the pivot, and every slot it passed is above the pivot; no index goes below `left` |
| Sbsqsort.AbsorbLow | src/sbsqsort.rs:32-36 | a slot equal to the pivot is swapped into the low equal zone, which grows by one; zones stay ordered, the rest is unchanged, multisets and pairs are kept |
| Sbsqsort.AbsorbHigh | src/sbsqsort.rs:37-41 | a slot equal to the pivot is swapped into the high equal zone, which grows by one; zones stay ordered, the rest is unchanged, multisets and pairs are kept |
| Sbsqsort.Exchange | src/sbsqsort.rs:31-41 | one exchange step keeps the four zones (equal, less, greater, equal) and both multisets, changes nothing outside `(p, q)`, and keeps pairs when the straddle swap is mirrored |
| Sbsqsort.Partition | src/sbsqsort.rs:10-43 | the partition loop never writes the pivot slot and leaves `[left, right)` in four zones around it, with indices in bounds; nothing outside the range changes and both multisets are kept |
| Sbsqsort.RotateLow | src/sbsqsort.rs:47-56 | all but one element of the low equal zone is moved next to the pivot: the cursor ends at `j = i - 1 - (p - left)` when `p > left` and at `i - 1` otherwise; `[left, j]` is at most the pivot and `(j, i)` equals it; `k < arr.len()` (line 55) holds throughout; only `[left, i)` changes |
| Sbsqsort.RotateHigh | src/sbsqsort.rs:48-64 | all but one element of the high equal zone is moved next to the pivot: the cursor ends at `i' = i + 1 + (right - 1 - q)` when `q < right - 1` and at `i + 1` otherwise; `(i, i')` equals the pivot and `[i', right]` is at least it; `k != 0` (line 63) holds throughout; only `(i, right)` changes |
| Sbsqsort.PlacePivotLow | src/sbsqsort.rs:45-56 | the pivot swap and the low rotation: the slots up to the pivot's new place are at most it, then equal to it, and the zones above are untouched |
| Sbsqsort.PlacePivot | src/sbsqsort.rs:45-64 | the pivot swap and both rotations leave `[left, j]` at most the pivot, `(j, i')` equal to it and `[i', right]` at least it, with `left-1 <= j < i < i' <= right+1` |
| Sbsqsort.PartitionAndRotate | src/sbsqsort.rs:10-64 | one partition step of `quicksort_helper`: three zones around the pivot value, each recursive range strictly smaller than `[left, right]`, nothing outside the range changed, and both multisets kept |
| Sbsqsort.SortedAfterRecursion | src/sbsqsort.rs:66-67 | sorting the low and the high zone separately sorts the whole range |
| Sbsqsort.QuicksortHelper | src/sbsqsort.rs:4-68 | `[left, right]` ends sorted, nothing outside it changes, both multisets are kept, and a range of at most one slot is left untouched |
| Sbsqsort.Quicksort | src/sbsqsort.rs:75-88 | the values end sorted; values and keys are each permuted; arrays of length at most 1 are unchanged; key slots beyond the value array's length are untouched |
| Sbsqsort.QuicksortPaired | src/sbsqsort.rs:4-88 | with the straddle swap applied to the keys too, the values end sorted and the multiset of (value, key) pairs is kept; key slots beyond the value array's length are untouched |
| Sbsqsort.StraddleTrace | src/sbsqsort.rs:16-67 | the sort as written on values `[2000, 0, 1000]` with keys `[p0, p1, p2]`, replayed through the two swaps that move anything (line 31, then lines 45-46), ends with values `[0, 1000, 2000]` and keys `[p0, p2, p1]`, and no slot holds 2000 beside p0 |
| Sbsqsort.TracedPairHeld | src/sbsqsort.rs:31 | before that trace, 2000 is held beside p0 |
| Engine.Split | src/engine.rs:52 | `line.split(" ")` yields at least one piece, so the `0` arm of line 54 cannot be reached |
| Engine.SplitCount | src/engine.rs:52 | there is one piece more than the line has spaces, and no piece holds a space |
| Engine.JoinSplit | src/engine.rs:52 | the pieces joined with single spaces give the line back |
| Engine.SplitJoin | src/engine.rs:52 | pieces without spaces, joined and split again, are returned unchanged |
| Engine.Ingest | src/engine.rs:51-77 | reading one line only adds: every page and category already stored keeps its key and at least its set, and no stored set becomes empty |
| Engine.Load | src/engine.rs:40-86 | the lines read in order leave no stored set empty |
| Engine.Enter | src/engine.rs:67-68 | `entry(key).or_insert` gives the page a key, leaves the category map alone and leaves the set stored under every page as it was (a new page starts with the empty set) |
| Engine.AddCategory | src/engine.rs:73-76 | one category c of page `key`: `key` and c become keys, the page's set becomes its old set plus c, the category's set becomes its old set plus `key`, and every other stored set is unchanged |
| Engine.AddCategories | src/engine.rs:70-77 | the loop over a page's categories adds `key` as a page (when there is a category) and every category as a category, and no other key; the lemmas AddCategoriesPages and AddCategoriesCategories below give the sets |
| Engine.LoadKnowledge | src/engine.rs:40-86 | the loop over lines and categories builds the knowledge base that `Load` folds from the lines |
| Engine.AddCategoriesPages | src/engine.rs:70-77 | adding a page's categories adds the page as a key and exactly those categories to its set, and nothing else in the page map |
| Engine.AddCategoriesCategories | src/engine.rs:70-77 | adding a page's categories adds each category as a key and the page to its set, and nothing else in the category map |
| Engine.IngestWithoutCategories | src/engine.rs:53-61 | a line without a space (empty, or a page alone) leaves the knowledge base unchanged |
| Engine.IngestIdempotent | src/engine.rs:51-77 | reading the same line a second time changes nothing |
| Engine.IngestFromPairs | src/engine.rs:51-77 | reading a line adds exactly its (page, category) pairs to both indexes |
| Engine.LoadFromPairs | src/engine.rs:40-86 | the loaded knowledge base is exactly the pairs of all lines, indexed both ways |
| Engine.LoadConsistent | src/engine.rs:40-86 | after loading, page p lists category c exactly when c lists p and some line contributes (p, c); no stored set is empty |
| Engine.LoadAppend | src/engine.rs:40-86 | loading two files one after the other is the union of their pairs, and loading a file twice over is loading it once |
| Engine.LexLess | src/engine.rs:115 | the `String` order `BTreeMap::keys` follows: a proper prefix comes before the longer string |
| Engine.LexLessTransitive | src/engine.rs:115 | the `String` order of the key list is transitive |
| Engine.LexLessTotal | src/engine.rs:115 | the `String` order relates any two distinct strings |
| Engine.LeastExists | src/engine.rs:115 | every non-empty key set has a least key in that order |
| Engine.AscendingKeys | src/engine.rs:115 | the key list holds exactly the keys of the ranking map, in strictly ascending order |
| Engine.AscendingOnce | src/engine.rs:115 | a strictly ascending key list holds each of its keys exactly once |
| Engine.Found | src/engine.rs:132-140 | the number of query entries found in the set is at most the query's length |
| Engine.FoundNone | src/engine.rs:132-140 | the count is zero exactly when no query entry is in the set |
| Engine.FoundAll | src/engine.rs:132-140 | the count equals the query's length exactly when every query entry is in the set |
| Engine.FoundDistinct | src/engine.rs:132-140 | for a query without repetitions the count is the size of the intersection |
| Engine.SimilarityScore | src/engine.rs:142 | the score is a multiple of 1000, and it is 0 exactly when three times the count is below both sizes added together |
| Engine.DivisorPositive | src/engine.rs:142 | the divisor of line 142 is zero exactly when the query and the set are both empty |
| Engine.ScoreDisjoint | src/engine.rs:142 | a query sharing nothing with the set scores 0 |
| Engine.ScoreAtMost2000 | src/engine.rs:142 | a query without repetitions scores at most 2000 |
| Engine.ScoreIdentical | src/engine.rs:142 | a query without repetitions whose entries are exactly the set scores 2000, not the 1 of a Jaccard index |
| Engine.ScoreRepeated | src/engine.rs:132-142 | repeated query entries raise the score past 2000: `[x, x, x]` against `{x}` scores 6000 |
| Engine.ScoreHalfOverlap | src/engine.rs:142 | integer division floors a partial overlap: `[x, y]` against `{x, z}` scores 0 |
| Engine.CountSet | src/engine.rs:131 | the first counting loop yields the size of the set |
| Engine.CountMatch | src/engine.rs:134-139 | the inner search adds one exactly when the entry is in the set, and stops at the first match |
| Engine.CountFound | src/engine.rs:132-140 | the outer loop yields the query's length and the count of its entries found in the set |
| Engine.Similarity | src/engine.rs:123-143 | `similarity` computes `SimilarityScore` of the query and the set, and does not divide by zero |
| Engine.Surfaces | src/engine.rs:97-101 | the lookups of the gathering loop: a queried category c reaches page p when c is a stored category listing p and p has an entry of its own (definition only) |
| Engine.RankPages | src/engine.rs:90-112 | the ranking map holds exactly the candidate pages; each is stored with the score of its own categories, whichever category surfaced it first; no similarity call divides by zero |
| Engine.Recommend | src/engine.rs:89-120 | every candidate page is returned exactly once and nothing else is; a query naming no known category, the empty query included, returns nothing |
| Engine.CandidatesOfConsistent | src/engine.rs:96-101 | in a consistent knowledge base the candidates are the stored pages that list some category of the query |
| Engine.PairsKeepScores | src/engine.rs:115-117 | a sort that keeps every (value, key) pair leaves each key beside its own score |
| Engine.SortByScore | src/engine.rs:115-117 | with the corrected sort, the keys are permuted and come out in ascending order of score |
| Engine.RecommendRanked | src/engine.rs:89-120 | with the corrected sort, every candidate page is returned exactly once and in ascending order of its similarity score |

## Left out

- The knowledge file is not opened or read. `File::open`, the panic when it fails, `BufReader` and lines that fail to decode are replaced by a `lines` parameter.
- The `errorln!` messages on lines 55 and 59 are side output and are dropped. Only the `continue` is modelled.
- `src/main.rs` and the other files of the repository are not part of this model.
- `quicksort_by` takes a generic comparator, which is not modelled. The model uses the natural order on `int`, the one that `quicksort` passes.
- The `isize` indices and the `u64` counts and scores are unbounded `int`/`nat`. Wrap-around is not modelled; no input that fits in memory gets near those widths.
- Sbsqsort.Quicksort: requires `keys` to be at least as long as `arr` (when `arr` has two or more slots). The source panics on the first out-of-range `keys.swap` otherwise. `recommend` always passes equal lengths.
- Sbsqsort.Quicksort: promises no pairing of values with keys, because the straddle swap of line 31 does not keep it (see Findings).
- Engine.Recommend: promises no order of its result by score, for the same reason. The corrected `Engine.RecommendRanked` does.
- The counterexample to the pairing is not derived from `Sbsqsort.Quicksort`'s contract, which does not fix the order of the keys. `Sbsqsort.StraddleTrace` replays the input through the model's own swaps, following the code's branches by hand, and `Sbsqsort.StraddleSwapSplitsPair` shows the loss on the single step of line 31 in general.
- Engine.Similarity, Engine.SimilarityScore: require the query or the set to be non-empty. The source panics on a division by zero when both are empty, and `recommend` never calls it that way (`Engine.RankPages` proves this).
- The order in which a `BTreeSet` is iterated (line 99 and the similarity loops) is left arbitrary. What is proved holds in any order.

## Findings

| source | as written | input that shows it | evidently intended | confidence | as-written member | corrected member |
|---|---|---|---|---|---|---|
| src/sbsqsort.rs:31 | `arr.swap(i, j)` in the partition loop has no matching `keys.swap(i, j)`, unlike every other swap | values `[2000, 0, 1000]` with keys `[p0, p1, p2]`: the first exchange swaps only the two values, and the values end `[0, 1000, 2000]` with keys `[p0, p2, p1]`, so page p0, which scored 2000, is listed first, beside score 0 | every key stays beside its value, so that `recommend` returns the pages in order of their scores | not executed | Sbsqsort.StraddleTrace | Sbsqsort.QuicksortPaired |
