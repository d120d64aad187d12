# pairrank ranking engine, modelled in Dafny

pairrank ranks a list of named items by asking a person to compare them
two at a time. This project models the engine behind the interface. The
comparator is the asynchronous question "is the first item lower than
the second?". It answers 0 or 1, or fails. The engine has these parts:

- **Score utilities** (`src/algorithm.ts`):
  - sorting `(item, score)` results by score, then by name;
  - renumbering the scores densely from 0;
  - finding the runs of tied scores.
- **Exhaustive ranking** (`compareAllSort`): asks about every unordered
  pair once and scores each item by its wins.
- **Tie breaking** (`breakTies`): ranks each run of tied scores again and
  splices the result back in.
- **Merge-insertion sort**, also called Ford-Johnson (`src/ford-johnson.ts`):
  - pairs up the items;
  - sorts the larger half recursively;
  - inserts the rest by binary search;
  - with its worst-case comparison count and the group-size helpers.
- **Permutation generator** (`src/utils.ts`), the non-recursive form of
  Heap's algorithm, and the `assert`/`paranoia` checks.
- **Test fixtures** (`src/__tests__/test-utils.ts`): fixed and
  table-driven comparators, and the call-monitoring wrapper `testComp`.
  The wrapper is modelled as a class with mutable fields.

The modules follow the source files:
- `Common`: results, errors, comparators and the string order.
- `Scores`, `Ranking` and `TieBreaking`: `src/algorithm.ts`.
- `FordJohnson` and `MergeInsertionCounts`: `src/ford-johnson.ts`.
- `Heap`: `src/utils.ts`.
- `TestUtils`: `src/__tests__/test-utils.ts`.
- `RankingCases`, `SortCases`, `CountsCases` and `HeapOrders`: the
  expectations of the test files, stated as lemmas and checked methods.

How the source's behaviour is represented:
- **Comparator.** A total Dafny function from two names to `Result<Bit>`.
  A thrown error is an `Err` value, which every algorithm passes on
  unchanged.
- **Comparator calls.**
  - The algorithms return the calls they make as a ghost log.
  - A pure function states which calls that log holds.
  - `compareAllSort`, `breakTies` and `permutations` are imperative
    methods. Each is proved equal to a pure function, and the properties
    are lemmas about that function.
- **In-place updates.**
  - The in-place steps of `sortResults`, `normalizeScores` and one group's
    splicing in `breakTies` operate on `array`s.
  - So do the counter and working arrays of `permutations`.

Two behaviours of the code that a reader might not expect:
- **Scores after a tie group.** Once a group is spliced in, every score
  after it is shifted by one common delta (`src/algorithm.ts:126-136`),
  so that the entry after the group scores one above the group's last.
  Later scores can change, but their differences are kept
  (`TieBreaking.ResolveKeepsGaps`). The test at
  `src/__tests__/10algorithm.test.ts:128-129` expects such shifts.
- **`mergeInsertionMaxComparisons(0)`.** For n = 0 the code computes
  `0 * Math.ceil(Math.log2(0))`, which is `0 * -Infinity` and so `NaN`
  (`src/ford-johnson.ts:19-20`). The model returns `Ok(NaN)` exactly for
  n = 0 (`MergeInsertionCounts.MaxComparisons`).

## Model

| member | source | states |
|---|---|---|
| Common.NameLessIrreflexive | src/algorithm.ts:27 | the name order used as the secondary sort key never puts a name before itself |
| Common.NameLessTrichotomy | src/algorithm.ts:27 | for two names, exactly one of: the first comes first, they are equal, the second comes first |
| Common.NameLessTransitive | src/algorithm.ts:27 | the name order is transitive |
| Common.NameLessStrictTotal | src/algorithm.ts:27 | the name order is a strict total order on any list of names |
| Common.OrderedUnique | src/ford-johnson.ts:56-99 | under a strict total order, two ascending arrangements of the same values are the same sequence, so a sort's output is fixed by its input and the order |
| Common.SetSizeDetectsDuplicates | src/algorithm.ts:88-89 | the set of a list is as large as the list exactly when no item repeats, so the `new Set(items).size` test detects duplicates |
| Common.Factorial | src/algorithm.ts:73-76 | the big-integer factorial is at least 1 for every argument, non-positive ones included, so the division is defined |
| Scores.BeforeTotal | src/algorithm.ts:27-29 | the sort comparator (score in the chosen direction, then name) is a strict total order on entries |
| Scores.BeforeStrictTotal | src/algorithm.ts:27-29 | the sort comparator, seen as a relation, is a strict total order on the entries of any list |
| Scores.SortedOrderedBy | src/algorithm.ts:25-30 | a list sorted by the comparator has no later entry before an earlier one |
| Scores.LeqTransitive | src/algorithm.ts:27-29 | "not after" under that comparator is transitive |
| Scores.Insert | src/algorithm.ts:27-29 | inserting an entry adds exactly that entry: the length grows by one and the multiset by the entry |
| Scores.InsertSorted | src/algorithm.ts:27-29 | inserting into a sorted sequence keeps it sorted |
| Scores.SortSeq | src/algorithm.ts:25-30 | the reference sort keeps the length and the entries, and returns them sorted |
| Scores.SortedUnique | src/algorithm.ts:25-30 | two sorted arrangements of the same entries are equal, so the outcome of `results.sort` does not depend on the library's algorithm |
| Scores.SortResults | src/algorithm.ts:25-30 | afterwards the array is sorted by the chosen order and holds the same entries as before |
| Scores.Normalize | src/algorithm.ts:37-47 | names and length kept; the first score becomes 0 (unless it equals the start value -1); neighbours are equal afterwards exactly when they were equal before; every step is 0 or +1 |
| Scores.NormalizeScores | src/algorithm.ts:37-47 | the loop leaves the array holding `Normalize` of its old contents |
| Scores.SortedAscending | src/algorithm.ts:27 | entries sorted ascending have scores that never fall |
| Scores.NormalizeFixesDense | src/algorithm.ts:37-47 | scores that already start at 0 and have no gaps are left unchanged |
| Scores.NormalizeIdempotent | src/algorithm.ts:37-47 | normalizing twice gives the same result as normalizing once (for a first score other than -1) |
| Scores.NormalizeKeepsOrder | src/algorithm.ts:37-47 | on scores that never fall, any two positions are equal (or ordered) after normalizing exactly when they were before |
| Scores.NormalizeKeepsSorted | src/algorithm.ts:96-98 | entries sorted ascending stay sorted once their scores are normalized |
| Scores.RunEnd | src/algorithm.ts:58-64 | the end of a run is the first later index with a different score; everything in between has the same score |
| Scores.RunsFromExact | src/algorithm.ts:58-67 | from a run start on, the ranges reported are exactly the maximal runs of length two or more, ascending and disjoint |
| Scores.TieGroupsExact | src/algorithm.ts:54-69 | a range is reported exactly when it is a maximal run of two or more equal neighbouring scores; the ranges are ascending and disjoint |
| Scores.TieGroupsCover | src/algorithm.ts:54-69 | every two equal neighbours lie in one reported range, and nothing is reported exactly when no two neighbours share a score |
| Scores.FindTieGroups | src/algorithm.ts:54-69 | the scan returns the exact maximal runs of ties, ascending and disjoint (for non-negative scores, as the results type demands) |
| Ranking.Row | src/algorithm.ts:82-84 | row i of the nested loops pairs i with each of i+1 .. n-1, in that order |
| Ranking.Rows | src/algorithm.ts:81-84 | the first i rows hold exactly the index pairs (p, q) with p < i and p < q < n |
| Ranking.Lift | src/algorithm.ts:84 | each index pair (i, j) becomes the item pair (items[i], items[j]), one for one |
| Ranking.Pairs | src/algorithm.ts:80-85 | what `combinations2(items)` yields: the item pairs of the index pairs (i, j), i < j < n, in row-major order; n(n-1)/2 of them |
| Ranking.RowsLength | src/algorithm.ts:81-84 | the first i rows hold i(2n-i-1)/2 pairs |
| Ranking.RowsRowMajor | src/algorithm.ts:81-84 | the pairs come in strictly increasing lexicographic order |
| Ranking.IndexPairsFacts | src/algorithm.ts:80-85 | `combinations2` yields each (i, j) with i < j < n exactly once, in row-major order, n(n-1)/2 of them |
| Ranking.PairsOfDistinct | src/algorithm.ts:80-85 | on distinct items no pair compares an item with itself, and no unordered pair comes twice in either orientation |
| Ranking.LiftSnoc | src/algorithm.ts:82-84 | lifting one more index pair appends exactly its item pair |
| Ranking.RowPrefixStep | src/algorithm.ts:82-84 | the inner loop's next pair (i, j) extends the row done so far |
| Ranking.RowsNext | src/algorithm.ts:81-84 | a finished inner loop completes the rows up to i + 1 |
| Ranking.Combinations2 | src/algorithm.ts:80-85 | the two nested loops yield exactly the pairs of `Pairs`, in order |
| Ranking.FactorialTwoSteps | src/algorithm.ts:73-76 | n! = n(n-1)(n-2)! for n >= 2 |
| Ranking.QuotientOfPairs | src/algorithm.ts:77 | the big-integer division by 2(n-2)! is exact and gives the pair count |
| Ranking.CompareAllComparisons | src/algorithm.ts:72-78 | `compareAllComparisons(n)`, n!/(2(n-2)!) in big integers: never negative, and 0 for fewer than two items |
| Ranking.CompareAllComparisonsClosedForm | src/algorithm.ts:72-78 | n!/(2(n-2)!) equals n(n-1)/2 and the number of pairs `combinations2` yields for every n >= 0 (0 for n = 0 and 1), and 0 for negative n |

| Ranking.Answers | src/algorithm.ts:91-92 | when no call fails there is one answer per pair |
| Ranking.AnswersOk | src/algorithm.ts:91-92 | a run without failure asks about every pair, and answer k is the comparator's answer to pair k |
| Ranking.AnswersFailAt | src/algorithm.ts:91-92 | when pair k is the first to fail, its error is the result and no call is made after it |
| Ranking.StepFacts | src/algorithm.ts:91-94 | one more answered pair extends the answers and gives exactly its winner one more win |
| Ranking.Tally | src/algorithm.ts:90-96 | the raw results list each item once, in item order, with its number of wins |
| Ranking.Names | src/algorithm.ts:103 | the names of the results, position by position |
| Ranking.CompareAll | src/algorithm.ts:87-99 | duplicate items give the duplicates error; a successful ranking has one entry per item |
| Ranking.CompareAllCalls | src/algorithm.ts:88-89 | duplicate items are refused before any comparator call |
| Ranking.ScorePairs | src/algorithm.ts:90-95 | the scoring loop makes exactly the calls up to the first failure, returns that failure, and otherwise gives every item its number of wins |
| Ranking.ScoreStep | src/algorithm.ts:92-94 | one answered pair keeps the loop's invariant: the winner's score goes up by one |
| Ranking.CompareAllSort | src/algorithm.ts:87-100 | the method's result and its comparator calls are those of `CompareAll` and `CompareAllCalls` |
| Ranking.PairsAmongItems | src/algorithm.ts:84 | both items of every pair are among the items |
| Ranking.TallyOfScores | src/algorithm.ts:96 | `Array.from(scores)`, in item order, is the tally of wins |
| Ranking.NamesPermutation | src/algorithm.ts:96-97 | rearranging entries rearranges their names |
| Ranking.CompareAllOk | src/algorithm.ts:87-99 | a success means distinct items, every pair answered, and the wins tally sorted and normalized |
| Ranking.CompareAllAsksEveryPair | src/algorithm.ts:87-95 | a successful ranking calls the comparator on every pair exactly once, in `combinations2` order, n(n-1)/2 times, never with an item against itself |
| Ranking.CompareAllRanking | src/algorithm.ts:96-99 | a successful ranking holds every item once, sorted ascending by (score, name), with scores from 0 without gaps |
| Ranking.NormalizeRanks | src/algorithm.ts:98 | on ascending scores, normalizing keeps the strict order of any two positions |
| Ranking.TallyScores | src/algorithm.ts:96-97 | in any arrangement of the tally, each item's score is its number of wins |
| Ranking.RankedByWins | src/algorithm.ts:96-98 | after sorting and normalizing, one score is below another exactly when that item won fewer pairs |
| Ranking.CompareAllByWins | src/algorithm.ts:92-98 | the final scores order the items exactly as their numbers of wins do, ties included |
| Ranking.CompareAllEqualWins | src/algorithm.ts:92-98 | when every item wins equally often, every item gets score 0 |
| Ranking.CompareAllFailure | src/algorithm.ts:91-92 | when the comparator first fails on pair k, the ranking fails with that error after exactly k+1 calls |
| TieBreaking.Splice | src/algorithm.ts:110-136 | splicing a sub-ranking into a group keeps the list's length |
| TieBreaking.SpliceFacts | src/algorithm.ts:110-136 | entries before the group are kept; the group holds the sub-ranking raised by the base score; the entry after the group is one above its last; names after the group and score differences past it are kept |
| TieBreaking.SpliceGroup | src/algorithm.ts:110-123 | the front is kept and the group holds the sub-ranking raised by the base score |
| TieBreaking.SpliceOutside | src/algorithm.ts:126-136 | the front is kept and the score differences after the group are kept |
| TieBreaking.SpliceInto | src/algorithm.ts:110-136 | the two in-place loops leave the array holding `Splice` of its old contents |
| TieBreaking.SpliceEntries | src/algorithm.ts:117-135 | the entry-by-entry outcome of the two loops is the splice |
| TieBreaking.GroupDone | src/algorithm.ts:106-137 | one turn of the loop over the groups keeps its account of the result and of the calls, keeping the first failure met |
| TieBreaking.CompareAllRanks | src/algorithm.ts:108 | `compareAllSort` used as a sub-ranker keeps sizes, returns the names it was given with dense scores, and makes C(k, 2) calls for k names |
| TieBreaking.Sub | src/algorithm.ts:108 | a group's sub-ranking has the group's size, holds the group's names and has dense scores |
| TieBreaking.Resolve | src/algorithm.ts:106-137 | handling all groups in turn keeps the list's length |
| TieBreaking.TieGroupsFit | src/algorithm.ts:54-69 | the tie groups lie inside the list, are non-empty, ascending and disjoint |
| TieBreaking.BreakTiesResult | src/algorithm.ts:102-139 | duplicate names give the duplicates error; a success keeps the length |
| TieBreaking.BreakTiesCalls | src/algorithm.ts:103-104 | duplicate names are refused before any comparator call |
| TieBreaking.ResolveStep | src/algorithm.ts:106-137 | the first group's calls come first and the rest are handled on the list after it: spliced when the group was ranked, unchanged when it failed; a failure of the first group is the result whatever the rest does, a success gives the rest's result |
| TieBreaking.SpliceKeepsLater | src/algorithm.ts:108 | splicing one group leaves the names of later groups, and so their sub-rankings, unchanged |
| TieBreaking.GroupCallsSameNames | src/algorithm.ts:108 | lists whose groups hold the same names make the same calls |
| TieBreaking.ResolveCallsAllGroups | src/algorithm.ts:106-108 | every group's names, as they stand in the list given, are ranked, in group order, whichever groups fail |
| TieBreaking.ResolveOutcome | src/algorithm.ts:106-108 | tie breaking succeeds exactly when every group's sub-ranking does; a failure is the error of the first group that failed |
| TieBreaking.ResolveSucceeds | src/algorithm.ts:106-108 | success exactly when every group's sub-ranking succeeds |
| TieBreaking.ResolveFails | src/algorithm.ts:106-108 | a failure is the error of the first failing group |
| TieBreaking.FailsLater | src/algorithm.ts:106-108 | a failure in the rest after a successful first group is a failure of the same later group on the original list |
| TieBreaking.ResolveKeepsFront | src/algorithm.ts:110-123 | entries before the first group come out unchanged |
| TieBreaking.ResolveKeepsNames | src/algorithm.ts:117-136 | entries outside every group keep their names |
| TieBreaking.FirstGroupFilled | src/algorithm.ts:116-123 | the first group ends up holding its sub-ranking raised by its base score |
| TieBreaking.FrontKept | src/algorithm.ts:110-123 | what a splice placed stays on the same base once later groups are handled |
| TieBreaking.FilledFromTail | src/algorithm.ts:116-123 | the first group filled plus the later groups filled gives every group filled |
| TieBreaking.ResolveFillsGroups | src/algorithm.ts:110-123 | every group ends up holding its own sub-ranking, raised by the score before it plus one (0 at the front) |
| TieBreaking.StepAfterFirstGroup | src/algorithm.ts:126-136 | the entry after the first group scores one above the group's last |
| TieBreaking.StepIntoSecondGroup | src/algorithm.ts:110-114 | a group starting right after another starts one above it |
| TieBreaking.StepBeforeSecondGroup | src/algorithm.ts:126-136 | the shift after a group survives when the next entry is in no group |
| TieBreaking.StepIntoGroup | src/algorithm.ts:110-114 | a group that does not start at the front starts one above the entry before it |
| TieBreaking.StepsUpFromTail | src/algorithm.ts:126-136 | the step after the first group plus the steps after the later groups give the step after every group |
| TieBreaking.ResolveNext | src/algorithm.ts:106-137 | after a successful first group the result is that of the rest on the spliced list |
| TieBreaking.CallsNext | src/algorithm.ts:106-108 | the first group's calls come first, then those of the rest |
| TieBreaking.ResolveStepsAfterGroups | src/algorithm.ts:126-136 | right after every group the score is one above the group's last |
| TieBreaking.ResolveKeepsGaps | src/algorithm.ts:126-136 | where neither an entry nor the one before it is in a group, their score difference is kept |
| TieBreaking.SplicePieces | src/algorithm.ts:117-121 | a splice keeps the names in front of and behind the group and puts the sub-ranking's names in it |
| TieBreaking.SpliceNames | src/algorithm.ts:117-121 | a splice that puts the group's own names back keeps the names of the whole list |
| TieBreaking.ResolveKeepsNameSet | src/algorithm.ts:102-139 | the result holds the same names as the input, each as often |
| TieBreaking.ResolveCallCount | src/algorithm.ts:106-108 | a successful run makes C(k, 2) comparator calls for every group of k |
| TieBreaking.CallCountStep | src/algorithm.ts:106-108 | the call count splits into the first group's C(k, 2) and the count of the rest |
| TieBreaking.BreakTiesUnfold | src/algorithm.ts:102-108 | with distinct names, tie breaking handles exactly the groups `findTieGroups` reports, each ranked by `compareAllSort` |
| TieBreaking.BreakTiesResultUnfold | src/algorithm.ts:102-108 | the result unfolds to handling the tie groups |
| TieBreaking.BreakTiesCallsUnfold | src/algorithm.ts:102-108 | the calls unfold to those of handling the tie groups |
| TieBreaking.BreakTiesAsksEveryGroup | src/algorithm.ts:102-108 | `breakTies` hands the names of every tie group of its input to `compareAllSort`, even after a group has failed, and makes exactly those calls |
| TieBreaking.BreakTiesWithoutTies | src/algorithm.ts:106 | without two equal neighbouring scores the input comes back unchanged and the comparator is never called |
| TieBreaking.BreakTiesOutcome | src/algorithm.ts:102-108 | success exactly when every tie group's sub-ranking succeeds; a failure is the first failing group's error |
| TieBreaking.BreakTiesShape | src/algorithm.ts:102-139 | a success keeps the length and the names; keeps the front; keeps names outside groups; fills each group with its sub-ranking on its base; steps up by one after each group; keeps score differences elsewhere; makes C(k, 2) calls per group of k |
| TieBreaking.DenseInGroup | src/algorithm.ts:117-123 | inside a filled group neighbours differ by 0 or 1 |
| TieBreaking.DenseAtGroupStart | src/algorithm.ts:110-122 | a filled group starts at its base score |
| TieBreaking.DenseStep | src/algorithm.ts:110-136 | every neighbour step of the result is 0 or +1 |
| TieBreaking.DenseFromShape | src/algorithm.ts:110-136 | with dense input scores, the result's scores are dense |
| TieBreaking.BreakTiesKeepsDense | src/algorithm.ts:102-139 | scores from 0 without gaps, as `normalizeScores` leaves them, come out from 0 without gaps |
| TieBreaking.RankGroup | src/algorithm.ts:106-136 | one group: its failure is reported and leaves the array unchanged; otherwise the array becomes the splice of its sub-ranking |
| TieBreaking.RankGroups | src/algorithm.ts:106-137 | every group is ranked, a failed one splicing nothing; the loop reports `Resolve`'s failure (the first failing group's error), or leaves `Resolve`'s result in the array; the calls are `ResolveCalls` |
| TieBreaking.BreakTies | src/algorithm.ts:102-139 | the method's result and calls are `BreakTiesResult` and `BreakTiesCalls` |
| MergeInsertionCounts.Pow2 | src/ford-johnson.ts:19-21 | powers of two are at least 1 |
| MergeInsertionCounts.Pow2Monotone | src/ford-johnson.ts:19-21 | powers of two grow with the exponent |
| MergeInsertionCounts.Pow2Mod3 | src/ford-johnson.ts:19-21 | powers of two are 1 or 2 modulo 3, so 3n is never one |
| MergeInsertionCounts.FloorLog2 | src/ford-johnson.ts:19-21 | floor(log2 x) is the exponent of the largest power of two not above x |
| MergeInsertionCounts.CeilLog2 | src/ford-johnson.ts:19-21 | ceil(log2 x) is the exponent of the smallest power of two not below x |
| MergeInsertionCounts.FloorLog2Unique | src/ford-johnson.ts:19-21 | that bracketing determines floor(log2 x) |
| MergeInsertionCounts.CeilLog2Unique | src/ford-johnson.ts:19-21 | that bracketing determines ceil(log2 x) |
| MergeInsertionCounts.CeilLog2Halving | src/ford-johnson.ts:79-85 | halving a search over s >= 1 entries saves exactly one step of ceil(log2(s+1)) |
| MergeInsertionCounts.SearchDepthMonotone | src/ford-johnson.ts:79-85 | the worst-case probe count grows with the width |
| MergeInsertionCounts.SearchDepthIsCeilLog2 | src/ford-johnson.ts:79-85 | the worst-case number of probes over w entries is ceil(log2(w+1)) |
| MergeInsertionCounts.CeilLog2Monotone | src/ford-johnson.ts:79-85 | ceil(log2 x) grows with x |
| MergeInsertionCounts.MaxComparisons | src/ford-johnson.ts:12-22 | a negative count is refused with the invalid-count error exactly when n < 0; the result is NaN exactly for n = 0 |
| MergeInsertionCounts.CeilOfTriple | src/ford-johnson.ts:19-20 | ceil(log2 3n) equals floor(log2 6n), and is at least 2 |
| MergeInsertionCounts.ExponentStep | src/ford-johnson.ts:19-20 | floor(log2 6n) and floor(log2 6(n-1)) are equal or one apart; when they differ, the power is 6n-2 or 6n-4 |
| MergeInsertionCounts.ClosedFormWith | src/ford-johnson.ts:19-21 | the closed form written with f = floor(log2 6n) |
| MergeInsertionCounts.SameExponentStep | src/ford-johnson.ts:19-21 | with an unchanged exponent f the closed form grows by f-2 |
| MergeInsertionCounts.NextExponentStep | src/ford-johnson.ts:19-21 | with the exponent grown to f the closed form still grows by f-2 |
| MergeInsertionCounts.ClosedFormOne | src/ford-johnson.ts:15-21 | the closed form and the sum agree at n = 1 |
| MergeInsertionCounts.ClosedFormStep | src/ford-johnson.ts:15-21 | from n-1 to n the closed form grows by ceil(log2(3n/4)) |
| MergeInsertionCounts.ClosedFormIsSum | src/ford-johnson.ts:15-21 | the closed form equals the sum of ceil(log2(3i/4)) for i = 1..n, as the commented-out loop next to it claims |
| MergeInsertionCounts.SumStep | src/ford-johnson.ts:15-21 | agreement at n-1 carries over to n |
| MergeInsertionCounts.MaxComparisonsIsSum | src/ford-johnson.ts:12-22 | for n >= 1 the value returned is that sum |
| MergeInsertionCounts.GroupSize | src/ford-johnson.ts:24-33 | the n-th group size is at most 2^n |
| MergeInsertionCounts.GroupSizeClosedForm | src/ford-johnson.ts:24-33 | 3a(n) = 2^(n+1) - 2(-1)^n, giving 2, 2, 6, 10, 22, ... |
| MergeInsertionCounts.GroupSizeBounds | src/ford-johnson.ts:24-33 | every yielded size is between 2 and 2^n, and two neighbouring sizes sum to 2^n |
| MergeInsertionCounts.Yielded | src/ford-johnson.ts:24-33 | every size the generator yields is at least 2 |
| MergeInsertionCounts.Reverse | src/ford-johnson.ts:42 | reversing keeps the length |
| MergeInsertionCounts.ReverseIndex | src/ford-johnson.ts:42 | entry k of the reversal is entry k from the end |
| MergeInsertionCounts.ReverseReverse | src/ford-johnson.ts:42 | reversing twice gives back the slice |
| MergeInsertionCounts.ReversePermutation | src/ford-johnson.ts:42 | reversing keeps the elements |
| MergeInsertionCounts.ReversedGroups | src/ford-johnson.ts:35-48 | the reordering keeps the length |
| MergeInsertionCounts.ReversedGroupsAt | src/ford-johnson.ts:38-46 | a full group of the next size is reversed before the rest; a short last group is reversed and ends the reordering |
| MergeInsertionCounts.ReversedGroupsPermutation | src/ford-johnson.ts:35-48 | the reordering keeps the items |
| MergeInsertionCounts.PermutationOfLong | src/ford-johnson.ts:38-46 | the permutation step for an input holding a full first group |
| MergeInsertionCounts.ReversedGroupsInvolution | src/ford-johnson.ts:35-48 | applying the reordering twice gives back the input |
| MergeInsertionCounts.InvolutionOfLong | src/ford-johnson.ts:38-46 | the involution step for an input holding a full first group |
| MergeInsertionCounts.PendingAtStart | src/ford-johnson.ts:36-37 | the loop starts with nothing done and the whole reordering to come |
| MergeInsertionCounts.GroupRound | src/ford-johnson.ts:38-46 | one round: a short slice finishes the reordering; a full one moves on to the next size |
| MergeInsertionCounts.MakeMergeInsertionGroups | src/ford-johnson.ts:35-48 | the loop returns the group-reversed reordering of its input |
| CountsCases.MaxComparisonsAt | src/ford-johnson.ts:19-21 | the function's value at n >= 1 is the closed form |
| CountsCases.Table1To4 | src/__tests__/15ford-johnson.test.ts:24-31 | the expected counts for n = 1 to 4 |
| CountsCases.Table5To8 | src/__tests__/15ford-johnson.test.ts:24-31 | the expected counts for n = 5 to 8 |
| CountsCases.Table9To12 | src/__tests__/15ford-johnson.test.ts:24-31 | the expected counts for n = 9 to 12 |
| CountsCases.Table13To16 | src/__tests__/15ford-johnson.test.ts:24-31 | the expected counts for n = 13 to 16 |
| CountsCases.Table17To20 | src/__tests__/15ford-johnson.test.ts:24-31 | the expected counts for n = 17 to 20 |
| CountsCases.Table21To24 | src/__tests__/15ford-johnson.test.ts:24-31 | the expected counts for n = 21 to 24 |
| CountsCases.Table25To28 | src/__tests__/15ford-johnson.test.ts:24-31 | the expected counts for n = 25 to 28 |
| CountsCases.Table29To32 | src/__tests__/15ford-johnson.test.ts:24-31 | the expected counts for n = 29 to 32 |
| CountsCases.Table33To36 | src/__tests__/15ford-johnson.test.ts:24-31 | the expected counts for n = 33 to 36 |
| CountsCases.Table37To40 | src/__tests__/15ford-johnson.test.ts:24-31 | the expected counts for n = 37 to 40 |
| CountsCases.Table41To44 | src/__tests__/15ford-johnson.test.ts:24-31 | the expected counts for n = 41 to 44 |
| CountsCases.Table45To48 | src/__tests__/15ford-johnson.test.ts:24-31 | the expected counts for n = 45 to 48 |
| CountsCases.Table49To52 | src/__tests__/15ford-johnson.test.ts:24-31 | the expected counts for n = 49 to 52 |
| CountsCases.Table53To56 | src/__tests__/15ford-johnson.test.ts:24-31 | the expected counts for n = 53 to 56 |
| CountsCases.GroupSizesStart | src/ford-johnson.ts:24-33 | the generator starts 2, 2, 6, 10, 22, 42, 86, 170 |
| CountsCases.GroupsOfTen | src/ford-johnson.ts:35-48 | ten items 0..9 come out as 1, 0, 3, 2, 9, 8, 7, 6, 5, 4 |
| CountsCases.TenInGroups | src/ford-johnson.ts:35-48 | the group-reversed reordering of 0..9 written out |
| CountsCases.FullGroup | src/ford-johnson.ts:38-46 | a full group of the next size is reversed in front of the rest |
| CountsCases.SmallReversals | src/ford-johnson.ts:42 | the reversals of the short slices written out |
| FordJohnson.NotAfterTransitive | src/ford-johnson.ts:92 | "not after" under a strict total order on the names is transitive |
| FordJohnson.ConsistentPart | src/ford-johnson.ts:73 | a comparator that decides, or is consistent with an order, on some names does so on any of them |
| FordJohnson.UniqueApart | src/ford-johnson.ts:56-99 | in a list without repeats two positions hold different names |
| FordJohnson.DistinctIsUnique | src/ford-johnson.ts:56-99 | distinct positions hold distinct names, so no name repeats |
| FordJohnson.MultisetPart | src/ford-johnson.ts:60-70 | a part of a multiset identity is contained in the whole |
| FordJohnson.ReportedAfter | src/ford-johnson.ts:67 | answered calls followed by a reported run give a reported run |
| FordJohnson.AnsweredConcat | src/ford-johnson.ts:67 | answered call logs concatenate |
| FordJohnson.PairUp | src/ford-johnson.ts:60-70 | calls are a prefix of the neighbour pairing; a failure is the comparator's; on success there are floor(n/2) pairs, each put in answer order, a leftover exactly for odd n, and no item lost; a consistent comparator never fails |
| FordJohnson.PairCall | src/ford-johnson.ts:66-67 | the next pairing call extends the pairing prefix; a failure ends the log |
| FordJohnson.PairStep | src/ford-johnson.ts:66-69 | an answered pair keeps the pairing invariant |
| FordJohnson.PairsOrderedStep | src/ford-johnson.ts:67-69 | the new pair is the next neighbours in answer order |
| FordJohnson.HalvesStep | src/ford-johnson.ts:67-69 | the larger and smaller halves hold the paired prefix |
| FordJohnson.TwoMore | src/ford-johnson.ts:67-69 | one pair, in either order, adds its two items to the halves |
| FordJohnson.PairedAll | src/ford-johnson.ts:60-70 | when no full pair is left the pairing is complete and the leftover is the last item exactly for odd n |
| FordJohnson.PrefixAll | src/ford-johnson.ts:60-70 | the whole prefix is the sequence |
| FordJohnson.PrefixLast | src/ford-johnson.ts:60-70 | a prefix one short plus the last element is the sequence |
| FordJohnson.PrefixTwo | src/ford-johnson.ts:60-70 | a prefix two longer adds the next two elements |
| FordJohnson.Pairing | src/ford-johnson.ts:60-70 | the first-step pairs are the neighbours (items[0], items[1]), (items[2], items[3]), ..., floor(n/2) of them, the last item staying out for odd n |
| FordJohnson.InsertInOrder | src/ford-johnson.ts:87 | splicing between the entries not after and those not before the new name keeps the chain in order |
| FordJohnson.BinSearchInsert | src/ford-johnson.ts:76-88 | at most ceil(log2(len+1)) calls, each comparing the name with a chain entry; a failure is the comparator's; a comparator that answers every call gives success; on success the name is spliced in once; a comparator consistent with any strict total order keeps a chain ordered by it ordered |
| FordJohnson.SearchStart | src/ford-johnson.ts:77 | the search starts over the whole chain with no calls |
| FordJohnson.SearchStep | src/ford-johnson.ts:78-86 | one probe at the midpoint stays within the depth bound and keeps the half its answer points to; a failed probe ends the search |
| FordJohnson.SearchEnd | src/ford-johnson.ts:87 | a closed search splices the name in, with every call answered and the depth bound met |
| FordJohnson.InsertAtSplice | src/ford-johnson.ts:87 | `splice(left, 0, what)` is the prefix, the name, then the rest |
| FordJohnson.ProbeStep | src/ford-johnson.ts:80-81 | each new probe compares the name with a chain entry |
| FordJohnson.CallStep | src/ford-johnson.ts:67 | whatever the answer, the log after one more call is reported |
| FordJohnson.Spliced | src/ford-johnson.ts:87 | the final splice adds the name once and, for a comparator consistent with a strict total order on an ordered chain, keeps the order |
| FordJohnson.SearchHalves | src/ford-johnson.ts:79-85 | each probe leaves a search one step shallower |
| FordJohnson.SearchSides | src/ford-johnson.ts:82-85 | for a comparator consistent with a strict total order the probed entry, and everything beyond it, sides with the answer |
| FordJohnson.MergeInsertionSort | src/ford-johnson.ts:56-99 | up to one item comes back as is with no calls; a failure is the comparator's; a comparator that answers every call gives success; a success is a permutation; a comparator consistent with any strict total order on the items gives a result ordered by it; calls only compare the input's names, never one with itself when names are unique |
| FordJohnson.InsertLosers | src/ford-johnson.ts:90-96 | inserting the smaller halves and the leftover ends in the sort's outcome |
| FordJohnson.InsertNext | src/ford-johnson.ts:91-96 | one insertion fails with the sort's outcome or moves the insertion state one name on |
| FordJohnson.RestNames | src/ford-johnson.ts:90-96 | the names still to insert are the remaining smaller halves and the leftover |
| FordJohnson.Inserted | src/ford-johnson.ts:97-98 | with nothing left to insert the chain is the finished sort |
| FordJohnson.LastRest | src/ford-johnson.ts:96 | after the last smaller half only the leftover remains |
| FordJohnson.PairCallsAmong | src/ford-johnson.ts:60-70 | pairing calls compare neighbouring items, never one with itself when names are unique |
| FordJohnson.SubProperties | src/ford-johnson.ts:73 | the recursive sort of the larger halves leaves a reported log and, on success, the start of the insertion steps |
| FordJohnson.StartInserting | src/ford-johnson.ts:73-90 | the insertion steps start from the sorted larger halves |
| FordJohnson.AmongWider | src/ford-johnson.ts:73 | calls among a part are among the whole |
| FordJohnson.LogConcat | src/ford-johnson.ts:56-99 | an answered log followed by a reported one is reported, with calls among the items |
| FordJohnson.InsertProperties | src/ford-johnson.ts:91-96 | one insertion's calls keep the log reported and among the items; on success the state moves on |
| SortCases.Ascending | src/__tests__/15ford-johnson.test.ts:36-38 | the test comparator `a>b?0:1` answers 0 exactly when b comes before a |
| SortCases.AscendingConsistent | src/__tests__/15ford-johnson.test.ts:36-38 | that comparator answers every call as name order says: it is consistent with the name order |
| SortCases.Letters | src/__tests__/15ford-johnson.test.ts:35 | the names are the letters A, B, ... |
| SortCases.LettersInOrder | src/__tests__/15ford-johnson.test.ts:35 | the letters are in order |
| SortCases.SortEveryOrder | src/__tests__/15ford-johnson.test.ts:33-40 | sorting each of the n! orders the generator yields returns the letters in order |
| SortCases.ListOrder | src/__tests__/test-utils.ts:22-24 | the order of first occurrence in the list: x before y exactly when x first occurs earlier |
| SortCases.ListOrderStrictTotal | src/__tests__/test-utils.ts:22-24 | the order of first occurrence is a strict total order on the listed names |
| SortCases.SimpleCompConsistent | src/__tests__/test-utils.ts:22-24 | `makeSimpleComp(list)` answers every call on listed names, consistently with the list's order |
| SortCases.ListInOwnOrder | src/__tests__/test-utils.ts:22-24 | a list without repeats is ordered by its own order |
| SortCases.SortByList | src/ford-johnson.ts:56-99 | sorting any arrangement of a list without repeats with `makeSimpleComp(list)` gives back the list |
| SortCases.SortFiveByList | src/__tests__/15ford-johnson.test.ts:50-51 | C, D, B, E, A sorted with the comparator of A, B, C, D, E comes out as A, B, C, D, E |
| Heap.Assert | src/utils.ts:19-20 | fails with the message exactly when the condition does not hold |
| Heap.Paranoia | src/utils.ts:23-24 | is the same check as `assert` |
| Heap.Swap | src/utils.ts:41-50 | a swap keeps the length |
| Heap.SwapPermutes | src/utils.ts:41-50 | a swap exchanges the two positions, keeps all others, and keeps the elements |
| Heap.Zeros | src/utils.ts:31 | n zeros |
| Heap.PlaceSumFrom | src/utils.ts:35-58 | counters below the level do not count |
| Heap.PlaceSumZeros | src/utils.ts:56-57 | zero counters add nothing |
| Heap.PlaceSumBound | src/utils.ts:35-58 | counters with c[k] <= k from level i are worth at most n! - i! |
| Heap.YieldStep | src/utils.ts:51-53 | a yield counts one more arrangement and stays below n! |
| Heap.ResetStep | src/utils.ts:55-57 | moving up past a full level counts nothing |
| Heap.ZerosCounters | src/utils.ts:31-34 | the loop starts with valid counters and nothing counted |
| Heap.RunLength | src/utils.ts:35-58 | from any state the loop yields exactly the arrangements still missing to n! |
| Heap.RunYield | src/utils.ts:38-53 | a swapping pass yields the swapped array first |
| Heap.RunReset | src/utils.ts:55-57 | a resetting pass yields nothing |
| Heap.RunPermutes | src/utils.ts:35-58 | every yielded array holds the same elements as the state's |
| Heap.Run | src/utils.ts:35-58 | the arrays the loop yields from a state on, each as long as the state's array |
| Heap.HeapOrder | src/utils.ts:30-60 | what `Array.from(permutations(array))` holds: the input itself first, then the yields, each as long as the input |
| Heap.HeapOrderProperties | src/utils.ts:30-60 | an input of length n gives n! arrays, the input itself first, each a rearrangement of the input |
| Heap.HeapOrderCount | src/utils.ts:30-60 | n! arrays |
| Heap.HeapOrderRearranges | src/utils.ts:30-60 | each array is a rearrangement of the input |
| Heap.LoopYield | src/utils.ts:38-53 | the loop invariant survives a swapping pass, and what is left to yield shrinks |
| Heap.LoopReset | src/utils.ts:55-57 | the loop invariant survives a resetting pass |
| Heap.LoopEnds | src/utils.ts:35 | on exit the collected arrays are the whole order |
| Heap.LoopStarts | src/utils.ts:31-34 | after the first yield the invariant holds |
| Heap.ZeroArray | src/utils.ts:31 | a new array of n zeros |
| Heap.CopyOf | src/utils.ts:32 | a new array holding the input |
| Heap.SwapForLevel | src/utils.ts:41-50 | the array with a[i] swapped with a[0] on even levels and with a[c[i]] on odd ones |
| Heap.Permutations | src/utils.ts:30-60 | the arrays yielded, in order, are `HeapOrder` of the input |

| HeapOrders.HeapOrderOfNone | src/__tests__/05utils.test.ts:22 | no elements give one empty arrangement |
| HeapOrders.HeapOrderOfOne | src/__tests__/05utils.test.ts:23 | one element gives itself |
| HeapOrders.TwoStep0 | src/utils.ts:35-58 | the run for two elements |
| HeapOrders.HeapOrderOfTwo | src/__tests__/05utils.test.ts:24 | two elements give both orders |
| HeapOrders.ThreeStep0 | src/utils.ts:35-58 | the run for three elements from the start |
| HeapOrders.ThreeStep1 | src/utils.ts:35-58 | the run for three elements after the first yield |
| HeapOrders.ThreeStep2 | src/utils.ts:35-58 | the run for three elements after the third yield |
| HeapOrders.HeapOrderOfThree | src/__tests__/05utils.test.ts:25-26 | three elements give their six orders in Heap's order |
| HeapOrders.FourBlock0 | src/utils.ts:35-58 | the first block of six for four elements |
| HeapOrders.FourStep0 | src/utils.ts:35-58 | a step of the run for four elements |
| HeapOrders.FourStep1 | src/utils.ts:35-58 | a step of the run for four elements |
| HeapOrders.FourStep2 | src/utils.ts:35-58 | a step of the run for four elements |
| HeapOrders.FourBlock1 | src/utils.ts:35-58 | the second block of six for four elements |
| HeapOrders.FourStep3 | src/utils.ts:35-58 | a step of the run for four elements |
| HeapOrders.FourStep4 | src/utils.ts:35-58 | a step of the run for four elements |
| HeapOrders.FourStep5 | src/utils.ts:35-58 | a step of the run for four elements |
| HeapOrders.FourBlock2 | src/utils.ts:35-58 | the third block of six for four elements |
| HeapOrders.FourStep6 | src/utils.ts:35-58 | a step of the run for four elements |
| HeapOrders.FourStep7 | src/utils.ts:35-58 | a step of the run for four elements |
| HeapOrders.FourStep8 | src/utils.ts:35-58 | a step of the run for four elements |
| HeapOrders.FourBlock3 | src/utils.ts:35-58 | the last block of six for four elements |
| HeapOrders.FourStep9 | src/utils.ts:35-58 | a step of the run for four elements |
| HeapOrders.FourStep10 | src/utils.ts:35-58 | a step of the run for four elements |
| HeapOrders.FourStep11 | src/utils.ts:35-58 | a step of the run for four elements |
| HeapOrders.FourStep12 | src/utils.ts:35-58 | a step of the run for four elements |
| HeapOrders.HeapOrderOfFour | src/__tests__/05utils.test.ts:27-31 | four elements give their 24 orders in Heap's order |
| HeapOrders.FourDistinct | src/__tests__/05utils.test.ts:27-31 | for four different elements the 24 orders are all different |
| HeapOrders.BlockDistinct | src/__tests__/05utils.test.ts:27-31 | a block of six orders ending in the same element is free of repeats |
| HeapOrders.JoinDistinct | src/__tests__/05utils.test.ts:27-31 | orders ending in x joined to different ones not ending in x have no repeats |
| HeapOrders.ThreeDistinct | src/__tests__/05utils.test.ts:25-26 | for three different elements the six orders are all different |
| HeapOrders.PermutationsOfLetters | src/__tests__/05utils.test.ts:21-32 | the generator on `[]`, `A`, `AB`, `ABC` and `ABCD` yields the expected lists |
| TestUtils.FailComp | src/__tests__/test-utils.ts:20 | every call fails with the fixed message |
| TestUtils.IndexOf | src/__tests__/test-utils.ts:23 | the first position of a name, or -1 exactly when it is absent |
| TestUtils.SimpleAnswer | src/__tests__/test-utils.ts:22-24 | never fails; 0 exactly when a occurs later in the list than b |
| TestUtils.MakeSimpleComp | src/__tests__/test-utils.ts:22-24 | `makeSimpleComp(items)` never fails and answers 0 exactly when the first argument occurs later in the list than the second |
| TestUtils.SimpleOpposite | src/__tests__/01test-utils.test.ts:21-29 | two different listed names get opposite answers in the two orders |
| TestUtils.SimpleFollowsList | src/__tests__/test-utils.ts:22-24 | on a list without repeats the answer is 1 exactly when the first name stands no later than the second |
| TestUtils.FirstIndex | src/__tests__/test-utils.ts:23 | in a list without repeats every name's first position is its own |
| TestUtils.CustomAnswer | src/__tests__/test-utils.ts:26-36 | fails with the "Unhandled comparison" message exactly when the pair's key is missing; otherwise the table's value, or one minus it for swapped names |
| TestUtils.CustomOpposite | src/__tests__/test-utils.ts:28-33 | both orders of two names share one key, so both fail or their answers add up to 1 |
| TestUtils.MakeCustomComp | src/__tests__/test-utils.ts:26-36 | `makeCustomComp(table)` fails exactly on pairs whose key is missing, and otherwise answers the table's value, flipped for names in descending order |
| TestUtils.Digit | src/__tests__/test-utils.ts:51 | a digit character for each value below ten |
| TestUtils.Decimal | src/__tests__/test-utils.ts:51 | the call count as the decimal digits a template string shows |
| TestUtils.DecimalRoundTrip | src/__tests__/test-utils.ts:51 | reading those digits back gives the count |
| TestUtils.RecordKeeps | src/__tests__/test-utils.ts:44-53 | a new pair of different names keeps the monitor's invariant, within the limit or not |
| TestUtils.LogLength | src/__tests__/test-utils.ts:50-52 | the log holds one entry per call within the limit while logging |
| TestUtils.InRecorded | src/__tests__/test-utils.ts:45 | a pair is recorded exactly when `pairMap.get(a)?.has(b)` |
| TestUtils.RecordOne | src/__tests__/test-utils.ts:48-49 | recording a new pair adds exactly that pair |
| TestUtils.RecordedGrows | src/__tests__/test-utils.ts:48-49 | the recorded pairs grow by the new pair |
| TestUtils.PlusOne | src/__tests__/test-utils.ts:48-49 | adding a new element grows a set by one |
| TestUtils.TestComp.constructor | src/__tests__/test-utils.ts:39-41 | a new monitor with no calls, no recorded pairs and an empty log |
| TestUtils.TestComp.Call | src/__tests__/test-utils.ts:42-54 | equal names are refused; a repeated pair in either order is refused; otherwise the pair is recorded and counted, and past the limit refused with the count, else logged when logging and forwarded |
| TestUtils.SimpleCompOnThree | src/__tests__/01test-utils.test.ts:21-29 | the six answers of the list comparator on A, B, C |
| TestUtils.CustomCompOnThree | src/__tests__/01test-utils.test.ts:31-39 | the six answers of the table comparator on A, B, C |
| TestUtils.DuplicateRefused | src/__tests__/test-utils.ts:45-47 | a monitor forwards the first comparison of a pair and refuses it again in either order |
| TestUtils.LimitReached | src/__tests__/test-utils.ts:50-52 | with a limit of one the second new pair is refused with the count 2, and only the first is logged |
| RankingCases.Unnamed | src/__tests__/10algorithm.test.ts:24-28 | scores paired with empty names, one for one |
| RankingCases.ScoresOf | src/__tests__/10algorithm.test.ts:24-28 | the scores of the entries, one for one |
| RankingCases.NormalizeShortLists | src/__tests__/10algorithm.test.ts:29-36 | the expected renumberings of the lists of up to two scores |
| RankingCases.NormalizeFourScores | src/__tests__/10algorithm.test.ts:37-41 | the expected renumberings of four scores |
| RankingCases.NormalizeFiveAndEight | src/__tests__/10algorithm.test.ts:42-43 | the expected renumberings of five and eight scores |
| RankingCases.NormalizeNineScores | src/__tests__/10algorithm.test.ts:44 | the expected renumbering of nine scores |
| RankingCases.NormalizeDenseNine | src/__tests__/10algorithm.test.ts:45 | already dense scores come back unchanged |
| RankingCases.TieGroupsShortLists | src/__tests__/10algorithm.test.ts:49-55 | the expected groups of the short lists |
| RankingCases.TieGroupsFirstAndLast | src/__tests__/10algorithm.test.ts:56 | groups at both ends |
| RankingCases.TieGroupsFromZero | src/__tests__/10algorithm.test.ts:57 | a group of score 0 at the front |
| RankingCases.TieGroupsInside | src/__tests__/10algorithm.test.ts:58-60 | groups inside the list |
| RankingCases.TieGroupsToEnd | src/__tests__/10algorithm.test.ts:61-63 | a group closed by the end of the list |
| RankingCases.TieGroupsThree | src/__tests__/10algorithm.test.ts:64-66 | three groups, two of them adjacent |
| RankingCases.RowsStep | src/algorithm.ts:81-84 | one more row of the enumeration |
| RankingCases.RowsOfFour | src/algorithm.ts:81-84 | the rows for four items |
| RankingCases.IndexPairsOfFour | src/algorithm.ts:80-85 | the six index pairs for four items, in order |
| RankingCases.IndexPairsOfThree | src/algorithm.ts:80-85 | the three index pairs for three items, in order |
| RankingCases.IndexPairsOfTwo | src/algorithm.ts:80-85 | the one index pair for two items |
| RankingCases.PairsOfFour | src/algorithm.ts:80-85 | the six item pairs for four items, in order |
| RankingCases.PairsOfThree | src/algorithm.ts:80-85 | the three item pairs for three items, in order |
| RankingCases.AnswersAll | src/algorithm.ts:91-92 | when the comparator answers every pair, the answers are those answers in order |
| RankingCases.CompareAllFrom | src/algorithm.ts:87-99 | distinct items whose pairs are all answered rank as any sorted arrangement of the tally, normalized, after asking every pair |
| RankingCases.SimpleAnswersOfFour | src/__tests__/10algorithm.test.ts:71-82 | the list comparator's answers to the six pairs of C, D, B, A |
| RankingCases.SimpleAnswersInOrder | src/__tests__/test-utils.ts:22-24 | the list comparator on four distinct names answers the six pairs of the order x2, x3, x1, x0 as 1, 0, 0, 0, 0, 0 |
| RankingCases.LettersDistinct | src/__tests__/10algorithm.test.ts:80 | the four letters are distinct |
| RankingCases.FourInOrder | src/__tests__/10algorithm.test.ts:81 | the expected ranking is sorted ascending |
| RankingCases.Shuffled | src/__tests__/10algorithm.test.ts:80-81 | the expected ranking holds the tallied entries |
| RankingCases.SimpleSortOfFour | src/__tests__/10algorithm.test.ts:80-82 | C, D, B, A rank as A 0, B 1, C 2, D 3 after six calls |
| RankingCases.WinsSnoc | src/algorithm.ts:92-94 | one more answered pair gives its winner one more win |
| RankingCases.TallyOfFour | src/algorithm.ts:90-96 | the tally for the four-letter case |
| RankingCases.CyclicTable | src/__tests__/10algorithm.test.ts:92 | the table of the three-way tie |
| RankingCases.LettersOrdered | src/__tests__/10algorithm.test.ts:92 | the three letters in name order |
| RankingCases.CyclicAnswers | src/__tests__/10algorithm.test.ts:92-95 | the table comparator's answers to the three pairs of C, A, B |
| RankingCases.TallyOfThree | src/algorithm.ts:90-96 | the tally for the three-way tie |
| RankingCases.ThreeTied | src/__tests__/10algorithm.test.ts:95-96 | the expected tied ranking is sorted ascending |
| RankingCases.CabDistinct | src/__tests__/10algorithm.test.ts:95 | C, A, B are distinct |
| RankingCases.Rotated | src/__tests__/10algorithm.test.ts:95-96 | the expected ranking holds the tallied entries |
| RankingCases.CyclicTie | src/__tests__/10algorithm.test.ts:89-97 | with "A beats B, C beats A, B beats C", C, A, B rank as A 0, B 0, C 0 after three calls |
| RankingCases.RankNothing | src/__tests__/10algorithm.test.ts:74-75 | the empty list ranks as empty without a call |
| RankingCases.PairsOfTwo | src/algorithm.ts:80-85 | the one pair of two items |
| RankingCases.TallyOfTwo | src/algorithm.ts:90-96 | the tally for two items |
| RankingCases.TwoInOrder | src/__tests__/10algorithm.test.ts:76 | the expected ranking of two is sorted ascending |
| RankingCases.SimpleSortOfTwo | src/__tests__/10algorithm.test.ts:76-77 | B, A rank as A 0, B 1 after one call |
| RankingCases.SimpleSortOfTwoInOrder | src/__tests__/10algorithm.test.ts:78-79 | A, B rank as A 0, B 1 after one call |

## Left out

- Concurrency:
  - `breakTies` starts every group's ranking through `Promise.all`. The
    model handles the groups one after the other, in ascending order.
    Every group is ranked even when an earlier one fails, and a failed
    group splices nothing.
  - Each sub-ranking reads only its own group's names, so every group is
    ranked from the original names either way (`TieBreaking.SpliceKeepsLater`,
    `TieBreaking.BreakTiesAsksEveryGroup`).
  - The order in which the comparator calls of different groups
    interleave is not modelled.
  - Nor is the order in which the splices finish when the answers arrive
    out of order.
- TieBreaking.ResolveStep: when groups fail, the error returned is that of
  the failing group with the lowest index. `Promise.all` rejects with the
  failure that happens first in time, which depends on when the answers
  arrive. The call log (`TieBreaking.ResolveCalls`) lists the groups'
  calls one group after the other, not interleaved as concurrent calls
  may be.
- TieBreaking.ResolveOutcome: the failure is chosen by group index, as for `TieBreaking.ResolveStep`.
- TieBreaking.ResolveFails: the failure is chosen by group index, as for `TieBreaking.ResolveStep`.
- TieBreaking.BreakTiesOutcome: the failure is chosen by group index, as for `TieBreaking.ResolveStep`.
- TieBreaking.RankGroups: the failure is chosen by group index and the calls are logged group by group, as for `TieBreaking.ResolveStep`.
- TieBreaking.BreakTies: the failure is chosen by group index and the calls are logged group by group, as for `TieBreaking.ResolveStep`.
- TieBreaking.BreakTiesCalls: the calls are logged group by group, as for `TieBreaking.ResolveStep`.
- Promises: `async`/`await` and returned promises become plain calls. A
  thrown error or a rejected promise is an `Err` value.
- Aliasing:
  - `Array.from(results)` copies only the outer array.
  - The source's splice loop writes into tuples that the caller's array
    shares.
  - The model works on values, so the caller's input is not seen to
    change.
- String order:
  - `localeCompare` (in `sortResults`) and JavaScript's `<`/`>` on strings
    (in `makeCustomComp` and the sort tests) are both modelled by one
    lexicographic order on code points, `Common.NameLess`.
  - Locale-specific collation is not modelled.
- `Scores.SortResults`: `Array.prototype.sort` is a black box with its own
  algorithm. The method is specified only by "sorted and the same entries".
  `Scores.SortedUnique` shows that this fixes the result.
- Floating point:
  - `mergeInsertionMaxComparisons` is computed with exact integer
    logarithms. The JavaScript `Math.log2` rounding is not modelled.
  - The only non-finite value modelled is the `NaN` at n = 0.
  - `compareAllComparisons` is modelled in unbounded integers. The final
    `Number(...)` conversion is exact for the counts that matter.
  - `BigInt(n)` throws a `RangeError` for a non-integer number; the `int`
    parameter of `Ranking.CompareAllComparisons` cannot hold one.
- FordJohnson.MergeInsertionSort: each smaller half is binary-searched into
  the whole chain, as `src/ford-johnson.ts:90-96` does, including the
  larger item it already lost to. So a pair can be asked twice (for two
  items the pairing call is repeated by the insertion). The model does
  not promise that a pair is asked at most once; a `testComp` monitor
  would refuse the repeat.
- `FordJohnson.MergeInsertionSort`: the source's test that the call count
  stays within `mergeInsertionMaxComparisons(n)` is marked as an expected
  failure, because the insertion order is not the optimal grouped one. So
  that bound is not stated. What is proved is the ceil(log2) bound for
  each binary search.
- Generators:
  - `permutations`, `combinations2`, `mergeInsertionGroupSizes` and the
    comparator-call logs are modelled as the finite sequences they yield
    (`Heap.HeapOrder`, `Ranking.Pairs`, `MergeInsertionCounts.Yielded`).
  - Laziness and restarting are not modelled.
- `Heap.HeapOrderProperties`: that the n! arrays are all different is
  proved only for up to four elements (`HeapOrders.FourDistinct`,
  `HeapOrders.ThreeDistinct`), not for every n.
- `TestUtils.TestComp.Call`:
  - The optional `log` array becomes a logging flag plus a `log` field.
  - The caller's own array object is not modelled.
  - The `Map` of `Map`s becomes a map of sets.
- `Scores.FindTieGroups` and `TieBreaking.BreakTies` require non-negative
  scores:
  - The scan starts from the value -1, so a first score of -1 would not be
    seen as a change.
  - The results type documents scores as non-negative
    (`src/algorithm.ts:21`).
  - The pure functions `Scores.TieGroups` and `TieBreaking.BreakTiesResult`
    carry no such requirement.
- `Scores.NormalizeIdempotent`: stated for a first score other than -1,
  since a leading -1 equals the scan's start value and is kept as is.
- Test examples:
  - The concrete `breakTies` examples of `src/__tests__/10algorithm.test.ts:115-129`
    are not written as lemmas. Their general properties are
    `TieBreaking.BreakTiesShape`, `TieBreaking.BreakTiesWithoutTies` and
    `TieBreaking.BreakTiesOutcome`.
  - The other `compareAllSort` examples (the orders A, B, C, D and
    D, C, B, A, and the other rotations of the three-way tie) are not
    written as lemmas. `RankingCases.CompareAllFrom` covers them in
    general.
- Out of scope:
  - `src/main.tsx`, the user interface;
  - the `merge-insertion` package the application imports;
  - build and test tooling.
