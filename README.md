# Advent of Code 2024 solvers, modelled in Dafny

This project models the puzzle solvers of an Advent of Code 2024 repository
written in Rust, and proves properties of the models. Each solver is a small
sequential algorithm that works in memory. It reads a puzzle text and
returns a number. The model has one Dafny module per source file:

| module | file | what it models |
|---|---|---|
| `Grid` | `grid.dfy` | `Mat2D`: a grid built from rows, with bounds-checked `get` and row-major `iter` |
| `Compass` | `compass.dfy` | `Direction`, `turn_right` and `Position::go`, shared by days 6 and 10 |
| `Locations` | `day01.dfy` | day 1: distance between two sorted location lists, and a similarity score |
| `Reports` | `day02.dfy` | day 2: report safety, and the dampener that may remove one level |
| `WordSearch` | `day04.dfy` | day 4: XMAS in eight orientations, and X-shaped MAS crosses |
| `PageOrder` | `day05.dfy` | day 5: a page order derived from `a|b` rules, the update checker, and repair by sorting |
| `Patrol` | `day06.dfy` | day 6: the guard's walk, loop detection, and the obstructions that cause a loop |
| `Calibration` | `day07.dfy` | day 7: evaluating equations left to right over every operator sequence |
| `Antennas` | `day08.dfy` | day 8: antinodes of same-frequency antenna pairs |
| `Disk` | `day09.dfy` | day 9: the disk map, its checksum, and both compactors |
| `Trails` | `day10.dfy` | day 10: the height graph, trail existence and trail counts |
| `Stones` | `day11.dfy` | day 11: the stone-splitting rule, and the memoised stone counter |

Three modules hold shared helpers:
- `Wrappers` holds `Option` and `Result`.
- `Text` holds the parts of Rust's `str` the solvers use: `lines`, `split`, `split_whitespace`, `trim`, and integer `parse`.
- `Decimal` holds powers of ten and digit counts.

The form of each model follows its source. Iterator chains and recursion
become functions. Loops that update variables become methods with loop
invariants:
- the patrol walks and `is_loop`;
- the `count_at` accumulator of day 4 and its `compute_answer` grid loops;
- the rule-map loop, the update checker and the part-two repair loop of day 5;
- the operator search of day 7;
- the parser and both compactors of day 9;
- the 25-blink loop and the cached recursion of day 11;
- the in-place sort of day 1.

Sorts and the part-two compaction of day 9 work in place on an `array`. The
day 11 cache is a `class` whose map field the recursion updates.

A call that panics in the source (`unwrap`, `expect`, `panic!`) is modelled
as a `None` or `Err` result. The model never promises a value in those cases.

## Model

| member | source | states |
|---|---|---|
| Grid.FromRows | src/lib.rs:49-55 | the grid keeps the rows in order, and each row's cells in order: (r, c) is in the grid exactly when r is a row index and c is below that row's length, and the cell there is `rows[r][c]` |
| Grid.Get | src/lib.rs:59-62 | `Some` exactly when the row exists and the column is below that row's own length (ragged rows allowed), holding the stored cell; `None` otherwise, never a failure |
| Grid.Cells | src/lib.rs:59-62 | the positions where `get` succeeds, as a set |
| Grid.Iter | src/lib.rs:64-71 | each yielded `((r, c), v)` has `get((r, c)) == Some(v)`; every cell of the grid is yielded; positions come strictly in row-major order |
| Grid.IterDistinct | src/lib.rs:64-71 | no position is yielded twice |
| Grid.CornerLookups | src/lib.rs:94-101 | on the 8×8 grid of rows `a`…`h`, the four corners read `a`, `a`, `h`, `h` |
| Compass.TurnRight | examples/day_06/main.rs:14-21 | a turn always changes the direction |
| Compass.TurnRightCycle | examples/day_06/main.rs:14-21 | the turns go North→East→South→West→North: four turns give back the direction, and the turns visit all four directions |
| Compass.TurnRightClockwise | examples/day_06/main.rs:14-21 | the turn is clockwise on the grid: away from row and column 0, the step after a turn is the step before it rotated a quarter turn clockwise, (Δrow, Δcol) becoming (Δcol, −Δrow) |
| Compass.Go | examples/day_06/main.rs:31-40 | `None` exactly for North at row 0 and West at column 0; otherwise exactly one coordinate changes, by one |
| Compass.GoThenBack | examples/day_06/main.rs:31-40 | a step followed by a step in the opposite direction returns to the start |
| Compass.GoInjective | examples/day_10/main.rs:30-39 | steps in two different directions reach two different cells |
| Locations.ParseLine | examples/day_01/main.rs:13-17 | a line parses exactly when it has at least two whitespace-separated tokens and the first two are `usize`s |
| Locations.ParseLineRoundTrip | examples/day_01/main.rs:13-17 | two `usize`s written with a space between them read back as themselves |
| Locations.ParseLines | examples/day_01/main.rs:13-17 | all lines parse or the result is `None` (the `unwrap` panics); otherwise one pair per line, in order |
| Locations.Unzip | examples/day_01/main.rs:18 | two equal-length columns whose k-th entries form the k-th pair |
| Locations.ParseInput | examples/day_01/main.rs:12-19 | two lists as long as the input has lines: the first and the second number of each line |
| Locations.SortSeq | examples/day_01/main.rs:35-36 | a sorted permutation of its input |
| Locations.InsertSorted | examples/day_01/main.rs:35-36 | inserting into a sorted list gives a sorted list with one more copy of the element |
| Locations.SortedUnique | examples/day_01/main.rs:35-36 | two sorted permutations of one multiset are equal, so any sort gives the same lists |
| Locations.SortIds | examples/day_01/main.rs:35-36 | `sort_unstable` in place: the array ends sorted and a permutation of its old contents |
| Locations.InsertId | examples/day_01/main.rs:35-36 | one insertion step keeps the contents and extends the sorted prefix by one |
| Locations.SortColumn | examples/day_01/main.rs:35-36 | sorting a column in an array gives `SortSeq` of it |
| Locations.GetSortedData | examples/day_01/main.rs:33-38 | `None` exactly when parsing fails; otherwise both columns sorted |
| Locations.TotalDistanceSymmetric | examples/day_01/main.rs:28-30 | the sum of absolute differences does not depend on which list is first |
| Locations.TotalDistanceZero | examples/day_01/main.rs:28-30 | for lists of equal length, the total distance is 0 exactly when the lists are equal |
| Locations.PartOneValue | examples/day_01/main.rs:26-31 | part one has a value exactly when the input parses, and it is the distance of the input's lines as `DistanceOfLines` defines it, which `ReorderedLines` shows does not depend on line order |
| Locations.PartOne | examples/day_01/main.rs:26-31 | the method sorts and sums as `PartOneValue` specifies |
| Locations.ApplyPermutation | examples/day_01/main.rs:13-18 | mapping a rearranged list of lines gives a rearranged column |
| Locations.ColumnsOf | examples/day_01/main.rs:13-18 | the parsed columns are the first and the second number of each line |
| Locations.ReorderedLines | examples/day_01/main.rs:34-37 | part one gives the same answer for any reordering of the input lines |
| Locations.Count | examples/day_01/main.rs:69-73 | the number of entries of the right list equal to the id |
| Locations.SimilarityCons | examples/day_01/main.rs:75-77 | the score adds `id × (occurrences of id in the right list)` for each left id |
| Locations.SimilarityRightOrder | examples/day_01/main.rs:69-77 | the score does not depend on the order of the right list |
| Locations.PartTwo | examples/day_01/main.rs:66-78 | part two has a value exactly when the input parses, and the value is the similarity score of the two columns, summing each left id times its count on the right (`SimilarityCons`, `SimilarityRightOrder`) |
| Locations.SampleLeftSorted | examples/day_01/main.rs:101-106 | the sample's left column 3 4 2 1 3 3 sorts to 1 2 3 3 3 4 |
| Locations.SampleRightSorted | examples/day_01/main.rs:101-106 | the sample's right column 4 3 5 3 9 3 sorts to 3 3 3 4 5 9 |
| Locations.SampleDistance | examples/day_01/main.rs:54 | the sorted sample columns are at total distance 11 |
| Locations.SampleSimilarity | examples/day_01/main.rs:87 | the sample's left column with any ordering of the right column (4 3 5 3 9 3) has similarity score 31 |
| Reports.ParseLevels | examples/day_02/main.rs:15-17 | `Some` exactly when every token is an `i32`, holding those values in order |
| Reports.FromStr | examples/day_02/main.rs:14-20 | a report parses exactly when every whitespace-separated token is an `i32`; one level per token, each within `i32` |
| Reports.FromStrRoundTrip | examples/day_02/main.rs:14-20 | a non-empty report of `i32` levels, written with single spaces, reads back as itself |
| Reports.Diffs | examples/day_02/main.rs:25-28 | one difference per adjacent pair, `next - prev` |
| Reports.SafeSteps | examples/day_02/main.rs:24-31 | a report is safe exactly when every adjacent step rises by 1 to 3, or every step falls by 1 to 3 |
| Reports.ShortIsSafe | examples/day_02/main.rs:24-31 | a report of at most one level is safe |
| Reports.SafeMonotone | examples/day_02/main.rs:24-31 | in a safe report the levels are strictly monotone: over `j - i` steps they change by at least `j - i` and at most `3(j - i)` |
| Reports.RepeatIsUnsafe | examples/day_02/main.rs:24-31 | two equal adjacent levels make a report unsafe |
| Reports.Without | examples/day_02/main.rs:49-51 | removing index `nth` shortens the list by one; an index past the end removes nothing |
| Reports.KeptWithout | examples/day_02/main.rs:49-51 | the `pos != nth` filter is the list with index `nth` removed |
| Reports.SafeSkipIsSafeWithout | examples/day_02/main.rs:48-57 | `is_safe_skip(nth)` is `is_safe` of the report with index `nth` removed |
| Reports.SafeSlice | examples/day_02/main.rs:24-31 | every contiguous slice of a safe report is safe |
| Reports.SkipsAreRemovals | examples/day_02/main.rs:48-57 | for every index, `is_safe_skip` is the safety of the report without that index |
| Reports.SafeWithoutEnd | examples/day_02/main.rs:48-57 | removing the first or the last level of a safe report leaves it safe |
| Reports.FirstSafeSkip | examples/day_02/main.rs:39-43 | the search returns the first index from `nth` on whose removal is safe, or `None` when there is none |
| Reports.IsSafeDampened | examples/day_02/main.rs:33-46 | `Ok(None)` exactly when safe; `Ok(Some(n))` for the smallest n whose removal makes it safe; `Err(())` exactly when unsafe and no removal helps |
| Reports.DampenedAt | examples/day_02/main.rs:33-46 | an unsafe report whose first safe removal is `nth` gets `Ok(Some(nth))` |
| Reports.DampenedAccepts | examples/day_02/main.rs:109 | the dampened check accepts exactly the reports that are safe or have one removal that is safe |
| Reports.ParseReports | examples/day_02/main.rs:74-75 | all lines parse or the result is `None` (the `unwrap` panics); one report per line otherwise |
| Reports.CountsOrdered | examples/day_02/main.rs:73-78 | safe count ≤ dampened count ≤ number of reports |
| Reports.CountSafe | examples/day_02/main.rs:76-77 | the number of safe reports never exceeds the number of reports |
| Reports.CountSafeAppend | examples/day_02/main.rs:76-77 | one more report adds one to the safe count exactly when it is safe |
| Reports.CountDampened | examples/day_02/main.rs:109-110 | the number of accepted reports never exceeds the number of reports |
| Reports.CountDampenedAppend | examples/day_02/main.rs:106-111 | one more report adds one to the dampened count exactly when it is accepted |
| Reports.PartOne | examples/day_02/main.rs:73-78 | a value exactly when all lines parse; the value is the number of safe reports, at most the number of lines |
| Reports.PartTwo | examples/day_02/main.rs:106-111 | a value exactly when all lines parse; the value is the number of reports the dampener accepts, between part one's answer and the number of lines |
| Reports.SampleSafe | examples/day_02/main.rs:140 | the sample report 7 6 4 2 1 is safe, and dampening gives `Ok(None)` |
| Reports.SampleRemovals | examples/day_02/main.rs:143 | 1 3 2 4 5 is unsafe, still unsafe without index 0, and safe without index 1 |
| Reports.SampleDampened | examples/day_02/main.rs:143 | dampening 1 3 2 4 5 gives `Ok(Some(1))` |
| WordSearch.ParseInputRows | examples/day_04/main.rs:11-13 | rows joined by newlines parse back to the grid of those rows |
| WordSearch.ParseInput | examples/day_04/main.rs:11-13 | the cell at (r, c) is character c of line r, and exactly those positions are in the grid |
| WordSearch.Read | examples/day_04/main.rs:21-23 | the cells at the given offsets from the anchor, each `None` when outside the grid |
| WordSearch.Occurrences | examples/day_04/main.rs:25-38 | one hit per orientation, so at most 8 (what each orientation adds is stated by `MatchesStep`) |
| WordSearch.CountAt | examples/day_04/main.rs:18-39 | the accumulator ends as the number of matching orientations, at most 8 |
| WordSearch.MatchesStep | examples/day_04/main.rs:26-36 | each orientation adds the hit of its four cells, read one by one from the anchor along its offsets |
| WordSearch.MatchInGrid | examples/day_04/main.rs:19-23 | a matching orientation lies inside the grid and spells XMAS there; cells outside the grid never match |
| WordSearch.PastLastRow | examples/day_04/main.rs:19-23 | an anchor below the last row matches nothing |
| WordSearch.CrossAt | examples/day_04/main.rs:78-89 | part-two `count_at` is 0 or 1 |
| WordSearch.MAndSCases | examples/day_04/main.rs:85-86 | a diagonal reads MAS in one direction or the other exactly when its ends are M and S in some order |
| WordSearch.CrossIsXShape | examples/day_04/main.rs:85-88 | part-two `count_at` is 1 exactly when A is at the centre and both diagonals have M and S at their ends |
| WordSearch.CrossInGrid | examples/day_04/main.rs:81-88 | a cross lies inside the grid |
| WordSearch.CountOf | examples/day_04/main.rs:47 | per anchor, at most 8 for part one and at most 1 for part two |
| WordSearch.CountAtIn | examples/day_04/main.rs:47 | the count one anchor adds is the `count_at` of the part being solved, at most its bound |
| WordSearch.ComputeAnswer | examples/day_04/main.rs:41-51 | the nested loops sum `count_at` over every anchor of `rows × cols` |
| WordSearch.RowSumBound | examples/day_04/main.rs:46-48 | when no anchor counts more than `bound`, one row adds at most `bound × cols` |
| WordSearch.GridSumBound | examples/day_04/main.rs:45-49 | when no anchor counts more than `bound`, the sweep adds at most `rows × bound × cols` |
| WordSearch.AnswerBound | examples/day_04/main.rs:41-51 | either answer is at most `rows × bound × cols`, with bound 8 for part one and 1 for part two |
| WordSearch.GridSumPastLastRow | examples/day_04/main.rs:41-51 | rows past the grid add nothing to part one |
| WordSearch.GridSumEmptyRows | examples/day_04/main.rs:45-49 | rows that add nothing can be dropped from the sum |
| WordSearch.SampleCell | examples/day_04/main.rs:143 | on the sample, `get((4, 1))` is `M` |
| WordSearch.SampleRowMatch | examples/day_04/main.rs:61-62 | part-one `count_at` at (0, 5) on the sample is 1 |
| WordSearch.OnlyAlongRow | examples/day_04/main.rs:61-62 | an anchor whose row reads XMAS to the right, and whose other seven lines each start or continue with a wrong letter, counts exactly one |
| WordSearch.SampleColumnMatch | examples/day_04/main.rs:63-64 | part-one `count_at` at (1, 6) on the sample is 1 (XMAS up the column) |
| WordSearch.OnlyUpColumn | examples/day_04/main.rs:18-38 | an anchor whose column reads XMAS upwards and whose seven other lines each read a wrong letter counts once |
| WordSearch.SampleCross | examples/day_04/main.rs:111-112 | part-two `count_at` at (0, 1) on the sample is 1 |
| WordSearch.SampleSecondCross | examples/day_04/main.rs:113-114 | part-two `count_at` at (1, 6) on the sample is 1 |
| PageOrder.ParseRule | examples/day_05/main.rs:19-22 | a rule line parses only if it has a `\|` |
| PageOrder.ParseRuleRoundTrip | examples/day_05/main.rs:19-22 | `left\|right` written from two `usize`s reads back as the pair |
| PageOrder.ParseRules | examples/day_05/main.rs:18-22 | all rule lines parse or the result is `None` (the `panic!`); one pair per line otherwise |
| PageOrder.RulesOf | examples/day_05/main.rs:15-29 | the rule map exists exactly when every line parses |
| PageOrder.FromLines | examples/day_05/main.rs:15-29 | the loop over the lines builds the rule map `RulesOf` describes |
| PageOrder.InsertFollows | examples/day_05/main.rs:23-25 | adding a rule adds exactly that pair to the relation |
| PageOrder.BuildFollows | examples/day_05/main.rs:18-26 | `right` is listed under `left` exactly when the rule `left\|right` was read |
| PageOrder.BuildOrder | examples/day_05/main.rs:23-25 | a page has an entry exactly when it is the left side of some rule; the entry lists its rules' right sides in input order |
| PageOrder.RulesOfFollows | examples/day_05/main.rs:15-29 | `right` is listed under `left` exactly when some line reads `left\|right` |
| PageOrder.ParseUpdate | examples/day_05/main.rs:59-61 | an update line gives one page per comma-separated piece, so at least one |
| PageOrder.ParsePages | examples/day_05/main.rs:60-61 | `Some` exactly when every piece is a `usize`, holding those pages in order |
| PageOrder.ParseUpdates | examples/day_05/main.rs:58-62 | all update lines parse or the result is `None`; one update per line otherwise |
| PageOrder.ParseInput | examples/day_05/main.rs:51-64 | `None` when there is no blank line (where the source panics); every update has a page |
| PageOrder.NoBlankLine | examples/day_05/main.rs:52-55 | with no blank line, splitting on it gives a single piece |
| PageOrder.CompareSwap | examples/day_05/main.rs:32-46 | Greater one way means Less the other way; Equal is symmetric; a page is never Greater than itself |
| PageOrder.CheckUpdate | examples/day_05/main.rs:72-82 | true exactly when no page is Greater than a later page |
| PageOrder.OrderedMiddlesAppend | examples/day_05/main.rs:84-87 | the sum of middle pages over two lists of updates is the sum of the two sums |
| PageOrder.PartOne | examples/day_05/main.rs:69-88 | a value exactly when the input parses: the sum of `u[len/2]` over the updates that `check_update` accepts |
| PageOrder.SortUpdate | examples/day_05/main.rs:125 | `sort_by` in place, as an insertion sort: the update ends a permutation of itself, with no page Greater than its right neighbour (the order the source leaves, or its panic, when the rules are not a total order on the update is not modelled) |
| PageOrder.InsertPage | examples/day_05/main.rs:125 | one insertion step keeps the contents and extends the ordered prefix by one |
| PageOrder.SortedInOrder | examples/day_05/main.rs:72-82 | a sorted update passes `check_update` when the rules order its pages totally and transitively |
| PageOrder.InOrderUnique | examples/day_05/main.rs:72-82 | two arrangements of the same pages that both pass `check_update` are equal when the rules order any two different pages one way and never both |
| PageOrder.SortUnique | examples/day_05/main.rs:124-126 | two sorted arrangements of an update are equal when the rules order its pages strictly and transitively |
| PageOrder.RepairAll | examples/day_05/main.rs:122-129 | only updates out of order are sorted, each into a permutation of itself, and their middle pages are summed |
| PageOrder.ReorderingUnique | examples/day_05/main.rs:122-129 | when the rules order the pages of every out-of-order update strictly and transitively, there is only one reordering, so part two's sum is fixed by the input |
| PageOrder.PartTwo | examples/day_05/main.rs:107-130 | a value exactly when the input parses: the sum of the middle pages of the repaired updates |
| PageOrder.SampleRuleLine | examples/day_05/main.rs:155 | a two-digit rule line such as `61\|13` parses to its pair |
| PageOrder.SampleRuleMap | examples/day_05/main.rs:155-162 | the sample rules 61\|13, 61\|29, 29\|13 build the map 61 ↦ [13, 29], 29 ↦ [13] |
| PageOrder.SampleUpdate | examples/day_05/main.rs:176 | under those rules 61,13,29 is out of order, while 61,29,13 is in order and has middle page 29 |
| Patrol.FindStart | examples/day_06/main.rs:57-62 | the first `^` in row-major order, or `None` when there is none |
| Patrol.ParseInput | examples/day_06/main.rs:53-55 | the cell at (r, c) is character c of line r, and exactly those positions are in the grid |
| Patrol.Step | examples/day_06/main.rs:76-93 | `None` exactly when the cell ahead is off the grid; the guard stays put exactly when the cell ahead is not free (it holds `#` or is the obstruction), and then turns right; otherwise it moves onto that cell and keeps its direction |
| Patrol.Walk | examples/day_06/main.rs:85-93 | a walk that starts on the grid stays on the grid for as long as it lasts |
| Patrol.WalkStaysOff | examples/day_06/main.rs:85 | once the walk has left the grid it stays off |
| Patrol.ExitsUnique | examples/day_06/main.rs:85 | the walk leaves the grid at one step only |
| Patrol.WalkStandsOnFreeCells | examples/day_06/main.rs:86-91 | the guard only stands on the start or on free cells |
| Patrol.VisitedCells | examples/day_06/main.rs:82-93 | the start is counted, and every other visited cell is free |
| Patrol.Patrol | examples/day_06/main.rs:75-96 | the loop returns the number of distinct cells the walk occupies until it leaves the grid |
| Patrol.PartOne | examples/day_06/main.rs:68-73 | `None` exactly when there is no start; otherwise the number of distinct cells of the walk from the start facing North |
| Patrol.IsLoop | examples/day_06/main.rs:123-156 | true exactly when the walk with the obstruction repeats a (position, direction) state |
| Patrol.LogEntry | examples/day_06/main.rs:138-140 | the map of visited directions records exactly the states seen so far |
| Patrol.NoRepeatBeforeExit | examples/day_06/main.rs:137-155 | a walk that leaves the grid without repeating a state is not a loop |
| Patrol.LoopObstructionsGrow | examples/day_06/main.rs:169-179 | each step of the walk adds the cell stepped into when it is not the start and obstructing it makes the walk from the start (facing North) loop |
| Patrol.CountLoopObstructions | examples/day_06/main.rs:158-184 | the number of cells stepped into, other than the start, whose obstruction makes the walk from the start facing North loop |
| Patrol.LoopObstructionsAreFreeCells | examples/day_06/main.rs:169-183 | every counted obstruction is a free cell other than the start |
| Patrol.PartTwo | examples/day_06/main.rs:116-121 | `None` exactly when there is no start; otherwise the count of loop-making obstructions |
| Calibration.ParseValues | examples/day_07/main.rs:20 | `Some` exactly when every piece is an `isize`, holding those values in order |
| Calibration.FromStr | examples/day_07/main.rs:12-26 | `MissingColon` exactly when there is no `:`; `BadResult` exactly when the text before it is not an `isize`; otherwise `BadValues` or an equation with at least one value |
| Calibration.FromStrRoundTrip | examples/day_07/main.rs:12-26 | an equation written as `result: v1 v2 …` reads back as itself |
| Calibration.ValuesRoundTrip | examples/day_07/main.rs:20 | the written values parse back as themselves |
| Calibration.ParseInput | examples/day_07/main.rs:39-44 | `None` exactly when a line fails to parse (the `expect`); one equation per line otherwise |
| Calibration.ParseLines | examples/day_07/main.rs:40-42 | all lines parse or the result is `None`; one equation per line otherwise |
| Calibration.Apply | examples/day_07/main.rs:144-148 | `None` exactly for Concat with a non-positive operand, where `ilog10` panics |
| Calibration.ApplyConcat | examples/day_07/main.rs:147 | Concat of positive numbers is written as the digits of the left number followed by those of the right |
| Calibration.EvaluateFails | examples/day_07/main.rs:143-149 | strictly left-to-right evaluation fails exactly when some Concat meets a non-positive operand |
| Calibration.EvaluateSnoc | examples/day_07/main.rs:143-149 | evaluation applies the operators strictly left to right, with no precedence |
| Calibration.Products | examples/day_07/main.rs:71-72 | every candidate has one operator per gap, each drawn from the operator set |
| Calibration.ProductsComplete | examples/day_07/main.rs:71-72 | every operator sequence of that length is a candidate |
| Calibration.ProductsLength | examples/day_07/main.rs:71-72 | there are `|ops|^n` candidates |
| Calibration.ProductsOrder | examples/day_07/main.rs:71-72 | the candidates come in `multi_cartesian_product` order: candidate `i·|T| + j` is operator `i` in front of the `j`-th placement `T[j]` of the remaining positions, so the first position varies slowest and the last fastest |
| Calibration.SearchFinds | examples/day_07/main.rs:73-87 | the search succeeds exactly when some candidate evaluates to the result |
| Calibration.HitsSolvable | examples/day_07/main.rs:70-88 | some candidate hits the result exactly when some operator sequence does |
| Calibration.SearchDecides | examples/day_07/main.rs:70-88 | `try_solve` is true exactly when some operator sequence, evaluated left to right, gives the result |
| Calibration.NoPanics | examples/day_07/main.rs:147 | with positive operands, or without Concat, no candidate panics |
| Calibration.SearchSound | examples/day_07/main.rs:73-87 | a `true` from the search means the equation is solvable |
| Calibration.EvaluatePrefixFails | examples/day_07/main.rs:143-149 | once a prefix of the operators fails, the whole evaluation fails |
| Calibration.Fold | examples/day_07/main.rs:143-149 | the inner loop ends with the left-to-right evaluation of the values under the candidate, or `None` where it panics |
| Calibration.TrySolve | examples/day_07/main.rs:137-156 | the nested loops return the answer `Solve` gives, with early return on a hit |
| Calibration.PartOneSolvedByPartTwo | examples/day_07/main.rs:58-61 | an equation part one can solve, part two can solve too (Add and Mul are among part two's operators) |
| Calibration.Outcomes | examples/day_07/main.rs:63-68 | the `try_solve` outcome of each equation, in order |
| Calibration.AcceptedDecided | examples/day_07/main.rs:64-67 | once every outcome is decided, the sum adds the results of exactly the solvable equations |
| Calibration.TotalIsSolvableSum | examples/day_07/main.rs:63-68 | the total is the sum of the results of the solvable equations |
| Calibration.ComputeAnswer | examples/day_07/main.rs:63-68 | `None` when parsing fails; otherwise, when no Concat can panic, the sum of the results of the solvable equations |
| Calibration.PartOne | examples/day_07/main.rs:63-68 | a value exactly when the input parses: the sum of the results solvable with Add and Mul |
| Calibration.PartTwo | examples/day_07/main.rs:130-135 | the sum of the results solvable with Add, Mul and Concat, when every operand is positive |
| Calibration.PartTwoAccepts | examples/day_07/main.rs:124-135 | every equation accepted in part one is accepted in part two |
| Calibration.SampleOne | examples/day_07/main.rs:97-99 | 190: 10 19 is solvable with Add and Mul |
| Calibration.SampleTwo | examples/day_07/main.rs:165-167 | 7290: 6 8 6 15 is solvable with Add, Mul and Concat |
| Antennas.Frequencies | examples/day_08/main.rs:13-15 | exactly the cells holding a letter or a digit, in input order |
| Antennas.GroupHas | examples/day_08/main.rs:16 | a position is listed under a character exactly when that character stands there |
| Antennas.GroupKeys | examples/day_08/main.rs:16 | every key of the map has at least one position |
| Antennas.GroupAscending | examples/day_08/main.rs:11-16 | each group's positions are in row-major order |
| Antennas.ParseInputHas | examples/day_08/main.rs:10-17 | `p` is listed under `c` exactly when `c` is a letter or digit and the grid holds `c` at `p` |
| Antennas.ParseInputDistinct | examples/day_08/main.rs:10-17 | no position is listed twice under a frequency |
| Antennas.Antinode | examples/day_08/main.rs:38-45 | the reflection `2·second − first` when it is in `0..ROWS × 0..COLS`, and `None` exactly when it is not (negative or too large) |
| Antennas.GetAntinodes | examples/day_08/main.rs:37-50 | exactly two candidates, the antinode beyond `other` and the one beyond `one` (`GetAntinodesSwap`) |
| Antennas.GetAntinodesSwap | examples/day_08/main.rs:47-49 | swapping the arguments swaps the two results |
| Antennas.AntinodeApart | examples/day_08/main.rs:38-45 | the antinode of two distinct antennas is neither of them |
| Antennas.SampleAntinodes | examples/day_08/main.rs:58-63 | `(3, 4)` and `(5, 5)` on a 10×10 grid give `[Some((7, 6)), Some((1, 3))]` |
| Antennas.Present | examples/day_08/main.rs:25 | `flatten` keeps exactly the `Some` values |
| Antennas.PairedWith | examples/day_08/main.rs:31-32 | the antinodes of one antenna with each later one all lie in the grid |
| Antennas.PairedWithSound | examples/day_08/main.rs:31-32 | every antinode collected for one antenna comes from one of the later antennas |
| Antennas.PairedWithComplete | examples/day_08/main.rs:31-32 | the antinodes of one antenna with any later antenna are collected |
| Antennas.PairAntinodes | examples/day_08/main.rs:30-32 | every antinode lies in the grid |
| Antennas.PairAntinodesSound | examples/day_08/main.rs:30-32 | every collected antinode names a pair `i < j` of the group that produces it |
| Antennas.PairAntinodesComplete | examples/day_08/main.rs:30-32 | the antinodes of every pair `i < j` of the group are collected |
| Antennas.PairAntinodesHas | examples/day_08/main.rs:30-32 | an antinode is collected exactly when some pair `i < j` of the group produces it (`tuple_combinations`) |
| Antennas.Antinodes | examples/day_08/main.rs:28-33 | the set of collected antinodes lies in the grid |
| Antennas.AntinodesExactly | examples/day_08/main.rs:23-35 | a position is counted exactly when it is the reflection of one antenna through another of the same frequency and lies in the grid |
| Antennas.ComputeAnswerCounts | examples/day_08/main.rs:23-35 | part one's answer is the number of positions of the map that are antinodes |
| Disk.MarkerOf | examples/day_09/main.rs:7 | the digit at index `2·id` describes file `id`; odd indices describe free runs |
| Disk.ParseInput | examples/day_09/main.rs:17-33 | `None` exactly when some character is not a digit; otherwise the block layout `Layout`, whose contents `LayoutCounts` and `LayoutOrdered` state |
| Disk.RepeatCount | examples/day_09/main.rs:24-28 | a run of `d` copies holds that cell exactly `d` times |
| Disk.LayoutCounts | examples/day_09/main.rs:17-33 | file `id` fills exactly as many cells as digit `2·id` says, and no cells when there is no such digit |
| Disk.LayoutOrdered | examples/day_09/main.rs:17-33 | file ids increase from left to right, and each id has its digit |
| Disk.SampleLayout | examples/day_09/main.rs:176-184 | `12345` parses to `0..111....22222` |
| Disk.ChecksumFromFront | examples/day_09/main.rs:35-40 | the checksum is the sum of `pos × id` over the used cells, counted from the front |
| Disk.ChecksumUpdate | examples/day_09/main.rs:35-40 | changing one cell changes the checksum by the difference of its weights; free cells weigh 0 |
| Disk.Repeat | examples/day_09/main.rs:24-28 | `n` copies of the cell |
| Disk.FirstFree | examples/day_09/main.rs:52 | the index of the first free cell, or `None` when there is none |
| Disk.SwapRemove | examples/day_09/main.rs:53 | `swap_remove`: the last cell takes the place of cell `i` and the others keep their order (removing the last cell just drops it); exactly that cell leaves the multiset |
| Disk.SwapRemoveMultiset | examples/day_09/main.rs:53 | moving the last cell into the gap removes exactly the cell at the gap |
| Disk.Compacted | examples/day_09/main.rs:51-55 | after part-one `defrag`, no free cell is left and the file cells are unchanged as a multiset |
| Disk.CompactDisk | examples/day_09/main.rs:51-55 | the `while let` loop computes `Compacted`: no free cell left, file cells kept |
| Disk.CompactedLength | examples/day_09/main.rs:51-55 | the disk shrinks by its number of free cells |
| Disk.PartOne | examples/day_09/main.rs:45-49 | `None` exactly for a non-digit character; otherwise the checksum of the compacted disk |
| Disk.LastFileId | examples/day_09/main.rs:99 | the id in the last used cell; `None` when the disk has no file (the `unwrap` panics) |
| Disk.UsedBackwardsDescending | examples/day_09/main.rs:101-102 | the reversed scan of used cells visits positions in decreasing order |
| Disk.UsedBackwardsHas | examples/day_09/main.rs:101-102 | the reversed scan visits every used cell |
| Disk.UsedBackwards | examples/day_09/main.rs:101-102 | the used cells of the range, each paired with its file id |
| Disk.SkipCount | examples/day_09/main.rs:103 | `skip_while` drops exactly the leading cells of other files |
| Disk.RunLength | examples/day_09/main.rs:104 | `take_while` keeps exactly the leading cells of the file |
| Disk.FileRunCells | examples/day_09/main.rs:101-104 | the run taken for a file lists cells of that file, from the highest position down |
| Disk.FileRunOfFile | examples/day_09/main.rs:101-104 | for a file stored in one block, the run is exactly that block's cells |
| Disk.SpanFoldCounts | examples/day_09/main.rs:105-107 | the fold ends at the last visited position (the file's first cell) with the run's length |
| Disk.FileSpan | examples/day_09/main.rs:101-108 | a found span lies inside the disk, is at least one cell long, and starts on a cell of the file |
| Disk.FileSpanOfFile | examples/day_09/main.rs:101-108 | for a file stored in one block, the span is its first cell and its length |
| Disk.FileSpanMissing | examples/day_09/main.rs:108 | no span exactly when the file has no cell (where the `unwrap` panics) |
| Disk.FreeRun | examples/day_09/main.rs:110-116 | a free run of the needed length ends before the file's position |
| Disk.FreeRunLeftmost | examples/day_09/main.rs:110-116 | the fold finds a free run of the needed length exactly when one lies before the file, and then the leftmost |
| Disk.FoldFreeCorrect | examples/day_09/main.rs:110-116 | from any point of the scan where the fold's state describes the cells seen so far, the fold ends with the leftmost fitting free run, or reports none exactly when none fits |
| Disk.SwapRangesPermutes | examples/day_09/main.rs:118-122 | swapping two blocks permutes the cells |
| Disk.MoveFile | examples/day_09/main.rs:100-122 | one outer pass keeps the length and the multiset of cells |
| Disk.MoveFileLeftmost | examples/day_09/main.rs:101-122 | a file stored in one block moves into the leftmost free run of at least its length before its first cell, and stays put when there is none |
| Disk.MoveVacates | examples/day_09/main.rs:118-122 | after a move the file occupies the free run and its old block is free |
| Disk.Rearranged | examples/day_09/main.rs:100 | files are processed in decreasing id order, keeping length and multiset |
| Disk.Defragged | examples/day_09/main.rs:97-124 | part-two `defrag` keeps length and multiset |
| Disk.SwapBlocks | examples/day_09/main.rs:119-121 | the `swap` loop exchanges the two blocks in place |
| Disk.DefragFiles | examples/day_09/main.rs:97-124 | in place, the slice ends as `Defragged` says, and is always a permutation of its old contents |
| Disk.LayoutFilesAt | examples/day_09/main.rs:17-33 | when every file digit is at least 1, the layout stores each file in one block, starting where the cells of the digits before it end |
| Disk.PassKeepsFiles | examples/day_09/main.rs:100-122 | on a disk whose files up to `id` are each in one block, the pass for `id` moves it into the leftmost fitting free run before it or leaves it, and the files still to be processed keep their blocks |
| Disk.RearrangedFiles | examples/day_09/main.rs:100-122 | when the files up to `id` are each in one block, every pass from `id` down to 0 finds its file in one block and none panics |
| Disk.DefraggedLayout | examples/day_09/main.rs:97-124 | on a disk map whose file digits are all at least 1, the last used cell holds the highest id, one less than the number of files, and part-two `defrag` does not panic |
| Disk.PartTwo | examples/day_09/main.rs:91-95 | `None` for a non-digit or where `defrag` panics; otherwise the checksum of the defragmented disk |
| Trails.ParseRow | examples/day_10/main.rs:57-58 | a line parses exactly when every character is a digit, one height per character |
| Trails.ParseRows | examples/day_10/main.rs:56-59 | all lines parse or the result is `None` (the `unwrap` panics); heights are at most 9 |
| Trails.ParseInput | examples/day_10/main.rs:55-64 | `Some` exactly when every line is all digits; then the grid is the parsed rows and the map has an entry for exactly the grid cells, each holding that cell's `neighbours` |
| Trails.Neighbours | examples/day_10/main.rs:66-73 | exactly the in-grid orthogonal cells one higher, listed in N, E, S, W order |
| Trails.NeighboursUnrolled | examples/day_10/main.rs:68-72 | the `filter_map` chain over `DIRECTIONS` is one optional cell per direction, in order |
| Trails.AdjacencyMap | examples/day_10/main.rs:60-62 | an entry per grid cell, holding its neighbours |
| Trails.TrailStep | examples/day_10/main.rs:97-105 | `is_trail(p, end)` holds exactly when `p == end` or some neighbour is a trail to `end` |
| Trails.TrailNext | examples/day_10/main.rs:97-105 | a trail from a cell other than the end continues through one of its uphill neighbours |
| Trails.TrailFrom | examples/day_10/main.rs:97-105 | a trail from any uphill neighbour is a trail from the cell |
| Trails.AnyTrailAt | examples/day_10/main.rs:99-104 | the early-return loop succeeds as soon as any listed neighbour is a trail |
| Trails.AnyTrailSome | examples/day_10/main.rs:99-104 | the early-return loop finds a trail exactly when some neighbour has one |
| Trails.TrailIffHike | examples/day_10/main.rs:96-107 | `is_trail` holds exactly when there is a path of orthogonal steps, each up by one |
| Trails.TrailToHike | examples/day_10/main.rs:96-107 | a trail gives such a path |
| Trails.HikeToTrail | examples/day_10/main.rs:96-107 | such a path gives a trail |
| Trails.TrailClimbs | examples/day_10/main.rs:96-107 | a trail ends inside the grid, higher than it starts unless it is empty |
| Trails.HikeClimbs | examples/day_10/main.rs:66-73 | a path of `n` cells climbs exactly `n - 1` |
| Trails.CountTrailsPositive | examples/day_10/main.rs:150-158 | `count_trails` is positive exactly when `is_trail` holds |
| Trails.CountTrailsCountsHikes | examples/day_10/main.rs:150-158 | `count_trails` is the number of distinct paths of orthogonal steps, each up by one, from `current` to `end` |
| Trails.SumTrailsPositive | examples/day_10/main.rs:153-155 | the sum over the neighbours is positive exactly when one of them is |
| Trails.PositionsAt | examples/day_10/main.rs:82-86 | exactly the positions listed with height `h` |
| Trails.Level | examples/day_10/main.rs:82-86 | exactly the cells of height `h`, in row-major order |
| Trails.ReachableCounts | examples/day_10/main.rs:90-93 | over distinct ends, a start's count is the number of ends it reaches |
| Trails.ReachableAtMostRating | examples/day_10/main.rs:144-147 | a start reaches at most as many ends as it has trails |
| Trails.PairsAtMostRatings | examples/day_10/main.rs:80-94 | the number of (start, end) pairs is at most the number of trails |
| Trails.PartOne | examples/day_10/main.rs:80-94 | `None` exactly when a character is not a digit; otherwise the number of (height 0, height 9) pairs joined by a trail |
| Trails.PartTwo | examples/day_10/main.rs:134-148 | `None` exactly when a character is not a digit; otherwise the sum of `count_trails` over every height-0 start and height-9 end, which is the number of hiking trails between them (`Trails.CountTrailsCountsHikes`), and at least part one's answer |
| Trails.SampleGrid | examples/day_10/main.rs:180-183 | the first sample parses to its height rows |
| Trails.SampleNeighboursCorner | examples/day_10/main.rs:197 | on the first sample, (0,0) has neighbours (0,1), (1,0) |
| Trails.SampleNeighboursInner | examples/day_10/main.rs:198 | on the first sample, (2,2) has neighbours (3,2), (2,1) |
| Trails.SampleTrail | examples/day_10/main.rs:117 | on the first sample, `is_trail((0,0), (3,0))` holds |
| Stones.Blink | examples/day_11/main.rs:28-40 | one or two stones, and 0 becomes 1 |
| Stones.BlinkRule | examples/day_11/main.rs:28-40 | 0 becomes 1; a stone with an even number of digits splits into high and low halves (the low half is below `10^(digits/2)`); any other stone is multiplied by 2024 |
| Stones.BlinkSplitHalves | examples/day_11/main.rs:32-37 | the high half has exactly half the digits |
| Stones.BlinkSamples | examples/day_11/main.rs:48-60 | 0 → 1, 1 → 2024, 17 → 1 7, 125 → 253000, 253000 → 253 0 |
| Stones.BlinkAll | examples/day_11/main.rs:23 | a blink never shrinks the row and at most doubles it |
| Stones.BlinkAllAppend | examples/day_11/main.rs:23 | stones blink independently of their neighbours |
| Stones.BlinksAppend | examples/day_11/main.rs:22-24 | after any number of blinks, the row is the concatenation of what each part becomes |
| Stones.ParseInput | examples/day_11/main.rs:9-14 | one stone per whitespace-separated token, each a `usize` |
| Stones.ParseAll | examples/day_11/main.rs:10-13 | `Some` exactly when every token is a `usize` (the `unwrap` panics otherwise) |
| Stones.PartOne | examples/day_11/main.rs:20-26 | `None` exactly when parsing fails; otherwise the number of stones after 25 blinks |
| Stones.StoneCountIsLength | examples/day_11/main.rs:93-102 | the recursive count for (stone, k) is the number of stones that stone becomes after k blinks |
| Stones.RowCountIsLength | examples/day_11/main.rs:107-109 | summing the counts over the stones gives the length of the blinked row |
| Stones.Cache.constructor | examples/day_11/main.rs:104 | the cache starts empty |
| Stones.Inner | examples/day_11/main.rs:93-102 | returns the number of stones `stone` becomes in the remaining `MAX_DEPTH - depth` blinks (1 at `MAX_DEPTH`); the cache stays valid (every entry keyed by (stone, blinks left) holds that count) and loses no entry |
| Stones.StoneCount | examples/day_11/main.rs:93-102 | every stone becomes at least one stone, however many blinks are left |
| Stones.PartTwo | examples/day_11/main.rs:92-113 | `None` exactly when parsing fails; otherwise the sum of the counts over 75 blinks |
| Stones.PartTwoIsRowLength | examples/day_11/main.rs:92-113 | that sum is the number of stones after 75 blinks |
| Stones.SampleInput | examples/day_11/main.rs:134-140 | `125 17` parses to [125, 17] |
| Stones.SampleFirstBlink | examples/day_11/main.rs:49-52 | [125, 17] becomes [253000, 1, 7] |
| Stones.SampleSecondBlink | examples/day_11/main.rs:54-56 | then [253, 0, 2024, 14168] |
| Stones.SampleThirdBlink | examples/day_11/main.rs:58-60 | then [512072, 1, 20, 24, 28676032] |

## Left out

- `src/lib.rs` `read_file_lines`: file I/O.
- `src/lib.rs` `Lazy`: a wrapper over a thread-synchronised once-cell, with no logic to verify.
- Day 3 in full: its logic lives in regular-expression patterns of the `regex` crate, which is not part of this model.
- Every `main`, the `include_str!` inputs, printed output, and the timing and cache-size printing of day 11.
- Fixed-width overflow is not modelled; integers are unbounded. This covers:
  - `i32` differences in day 2;
  - `isize` arithmetic in day 7;
  - `usize` arithmetic in days 1, 9 and 11;
  - the `u8` height `1 + height` in day 10;
  - the `isize` casts of day 8.
  Parsing does keep the source's type bounds: `usize`, `i32` and `isize` parse only within range.
- Rust `char` semantics: strings are sequences of characters, and whitespace is the ASCII set. Unicode whitespace and the byte offsets of `char_indices` (day 8) coincide with this only on ASCII input.
- `Locations.SortIds`: modelled as an insertion sort, not the std `sort_unstable`. A sorted permutation is unique (`Locations.SortedUnique`), so the result is the same.
- `PageOrder.SortUpdate`: modelled as an insertion sort, not the std `sort_by`. When the rules order an update's pages strictly and transitively, the sorted result is unique (`PageOrder.SortUnique`), so the two agree. When they do not, the order `sort_by` leaves is unspecified and `sort_by` may panic. The model does not describe that case: "a permutation with no page Greater than its right neighbour" is a property of the insertion sort only.
- `PageOrder.PartTwo`: its answer is stated over the reordering the sort produces (a ghost out-parameter), not as a fixed number. The reordering is unique, so the answer is a fixed number, when the rules order the pages of each out-of-order update strictly and transitively (`PageOrder.ReorderingUnique`). When they do not, the source's order is unspecified and `sort_by` may panic. The model does not describe that case; its answer there is the one its insertion sort gives.
- `PageOrder.ParseRule`: states only that a parsed line holds a `|`; its full meaning is given by `PageOrder.ParseRuleRoundTrip`.
- `WordSearch.CountAt`: each orientation adds a 0-or-1 `Hit` to the count, instead of running a conditional closure `then(|| count += 1)`. The resulting count is the same.
- `Patrol.Patrol`, `Patrol.PartOne`, `Patrol.CountLoopObstructions`, `Patrol.PartTwo`: part one's walk has no loop guard, so these require the walk to leave the grid within a ghost number of `steps`. On a looping map the source never returns, and the model does not describe that case.
- `Calibration.PartTwo`, `Calibration.ComputeAnswer`: a value is promised only when every operand is positive. Concat calls `ilog10`, which panics on 0 and on negatives, and the model then returns `None`.
- `Calibration.FromStr`: the three error messages are modelled as the three constructors of `ParseError`, not as strings.
- `Reports.FromStr`: the `ParseIntError` value is modelled as `None`.
- `Calibration.Products`: `multi_cartesian_product` over zero iterators is modelled as yielding one empty sequence, as recent itertools versions do. The itertools version the repository uses is not known here.
- `Trails.PartOne`, `Trails.PartTwo`: the `HashMap` is a Dafny map, and hash order is not modelled. The same holds for every `HashMap` and `HashSet` in days 5, 6, 8 and 11.
- `Disk.Defragged`: `None` also covers a file id below the last that has no cell, where the source unwraps an empty fold.
- Whole-input sample answers are not evaluated as lemmas: they are too costly for the verifier. The individual sample steps above are stated instead. The answers left out are:
  - day 1: 11 and 31 through parsing;
  - day 2: 2 and 4;
  - day 4: 18 and 9;
  - day 5: 143 and 123;
  - day 6: 41 and 6, plus `find_start` = (6,4) and `is_loop` at (6,3);
  - day 7: 3749 and 11387;
  - day 8: 14;
  - day 9: 1928, 2858, the part-one layouts `022111222` and the second sample, and the part-two layout;
  - day 10: 36 and 81;
  - day 11: 55312, and blink rows 4 to 6.
- The day 5 sample rule list is checked for three of its rules (`PageOrder.SampleRuleMap`), not in full.
- Tests that only print (`test_parse_input`, `test_ordering`, `test_get_sorted_data` and similar) state nothing to prove.
