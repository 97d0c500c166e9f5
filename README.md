# Seminar topic solver: preference loader and solver statistics in Dafny

This project models the core of `seminar_topic_solver.py`. The tool assigns
every student one seminar topic. Students rank topics 1, 2, 3, … (lower is
better) and may leave topics unranked. The tool has two parts:

- The **preference loader** (`parse_csv`) takes the table already split into
  cells. For every student it splits the topics into ranked and unranked ones.
  It rejects a rank below 1 and a rank the same student already gave. It
  requires a student's k ranks to sum to k(k+1)/2. It gives every unranked topic
  a default cost: the student's largest rank plus the threshold
  `penalize_below_n_preferences`, or the threshold plus 1 when the student
  ranked nothing. It then flattens everything into (student, topic, cost)
  triples.
- The **solver wrapper** (`solve_assignment_problem`) writes the triples into
  a zero-initialised students × topics cost matrix. It sums the matched cells of
  the matching that the external assignment solver returns. It warns when the
  average cost per student is above the threshold.

Files:

- `ranks.dfy` (module `Ranks`): sum, maximum, k(k+1)/2, and the theorem the
  loader relies on without checking it. Distinct values that are all at least
  1 and sum to k(k+1)/2 are exactly 1..k, and conversely (`RanksAccepted`).
- `loader.dfy` (module `Loader`): the table, cells, errors and triples. Also
  the specification function `Normalise`, and the loader as imperative code:
  `ParseCsv` and its three passes `ReadPreferences`, `CheckSequences`,
  `MergePreferences`. Each pass returns exactly what `Normalise` describes.
- `loader_properties.dfy` (module `LoaderProperties`): which tables are
  accepted, what every error points at, and the shape, order and costs of the
  triples.
- `solver.dfy` (module `Solver`): the matrix fill on an `array2`, the matched
  total, and the warning.
- `scenarios.dfy` (module `Scenarios`): worked examples.

The threshold, a module-level global in the source (lines 32 and 156), is an
explicit parameter `penalize` here. Costs and the matrix are integers. Every
cost the loader produces is an integer, so as long as costs and totals stay
within 2^53 in magnitude the numpy float matrix holds the same values. The average is computed as an exact `real` quotient.

A student who ranks topic A 3 and topic C 1 (the ranks {1, 3}) is rejected
by the sum check: 1 + 3 = 4, not 2·3/2 = 3 (seminar_topic_solver.py:113-119,
`Scenarios.GapRejected`). `Scenarios.ExampleNormalised` uses a table where
that student ranks A 2 and C 1.

## Model

| member | source | states |
|---|---|---|
| `Ranks.Sum` | seminar_topic_solver.py:115 | `sum(...)` of a list of ranks, as a recursive sum from the front |
| `Ranks.Max` | seminar_topic_solver.py:130 | the maximum of a non-empty list is one of its elements and no element exceeds it |
| `Ranks.TriExact` | seminar_topic_solver.py:117 | k(k+1) is always even, so the source's `/ 2` is exact and equals the integer `Tri(k)` |
| `Ranks.DistinctPositiveMax` | seminar_topic_solver.py:106-109 | the largest of k distinct values that are all ≥ 1 is at least k |
| `Ranks.DistinctPositiveBound` | seminar_topic_solver.py:106-119 | k distinct values that are all ≥ 1 sum to at least k(k+1)/2 |
| `Ranks.DistinctPositiveSum` | seminar_topic_solver.py:106-119 | k distinct values that are all ≥ 1 and sum to exactly k(k+1)/2 are the ranks 1..k |
| `Ranks.RankingSum` | seminar_topic_solver.py:113-119 | the ranks 1..k in any order are all ≥ 1 and sum to k(k+1)/2 |
| `Ranks.RanksAccepted` | seminar_topic_solver.py:106-119 | the three per-student checks (every value ≥ 1, no repeat, sum = k(k+1)/2) hold exactly when the values are the ranks 1..k (both directions) |
| `Ranks.RankingMax` | seminar_topic_solver.py:130-131 | the largest of the ranks 1..k is k, so an accepted student's default cost is k plus the threshold |
| `Loader.Topics` | seminar_topic_solver.py:81 | the topics are the header without its first cell, in order (none for an empty header row) |
| `Loader.Students` | seminar_topic_solver.py:84 | the students are the row labels in row order |
| `Loader.Normalise` | seminar_topic_solver.py:86-137 | the result of `parse_csv` as a value: the first per-cell error in row order, else the first student failing the sum check, else the students, the topics and every student's triples |
| `Loader.ScanError` | seminar_topic_solver.py:96-109 | the first per-cell error of one student over the first t columns: a rank below 1, else a rank already among that student's ranked entries |
| `Loader.FirstScanError` | seminar_topic_solver.py:95-109 | the first per-cell error over the first i students, in row order |
| `Loader.FirstSumError` | seminar_topic_solver.py:113-119 | the first of the first i students whose k ranks do not sum to k(k+1)/2, as `NotSequence(student)` |
| `Loader.DefaultCost` | seminar_topic_solver.py:124-131 | the cost of an unranked topic: the largest rank plus the threshold, or the threshold plus 1 when the student ranked nothing |
| `Loader.CostOf` | seminar_topic_solver.py:123-135 | the cost the loader emits for the pair (student, t): the rank of a ranked cell, else the student's default cost |
| `Loader.ParseCsv` | seminar_topic_solver.py:86-137 | the loader returns exactly `Normalise`: the first per-cell error in row order, else the first student failing the sum check, else students, topics and all triples |
| `Loader.ReadPreferences` | seminar_topic_solver.py:96-111 | the first pass stops at the first rank below 1 or repeated within a student (row by row, column by column); otherwise it returns every student's ranked entries and unranked topics in column order |
| `Loader.ReadStudent` | seminar_topic_solver.py:96-111 | one student's cells, column by column: the student's first rank below 1 or repeat, else the ranked entries and the unranked topics in column order |
| `Loader.CheckSequences` | seminar_topic_solver.py:114-119 | the second pass reports the first student whose ranks do not sum to k(k+1)/2, and nothing when all do |
| `Loader.MergePreferences` | seminar_topic_solver.py:123-135 | the third pass emits, student by student, the student's completed entries as triples |
| `Loader.AppendTriples` | seminar_topic_solver.py:134-135 | the preference list grows by one (student, topic, cost) triple per completed entry, in entry order, and is otherwise unchanged |
| `Loader.CompleteStudent` | seminar_topic_solver.py:124-133 | a student's ranked entries followed by one default-cost entry per unranked topic; the default is max rank + threshold, or threshold + 1 when nothing was ranked |
| `LoaderProperties.SpecifiedInRange` | seminar_topic_solver.py:101-111 | every ranked entry is for a ranked cell among the columns read and carries that cell's value |
| `LoaderProperties.SpecifiedIncreasing` | seminar_topic_solver.py:97-111 | ranked entries are recorded in strictly increasing column order |
| `LoaderProperties.SpecifiedCovers` | seminar_topic_solver.py:97-111 | every ranked cell among the columns read has its entry |
| `LoaderProperties.UnspecifiedInRange` | seminar_topic_solver.py:99-100 | every unranked topic is an empty cell among the columns read |
| `LoaderProperties.UnspecifiedIncreasing` | seminar_topic_solver.py:97-100 | unranked topics are recorded in strictly increasing column order |
| `LoaderProperties.UnspecifiedCovers` | seminar_topic_solver.py:97-100 | every empty cell among the columns read is recorded as unranked |
| `LoaderProperties.SplitSize` | seminar_topic_solver.py:97-111 | each column read is either ranked or unranked, so the two lists together have one item per column |
| `LoaderProperties.NoRanksWhenAllEmpty` | seminar_topic_solver.py:99-100 | a student whose cells are all empty has no ranked entries |
| `LoaderProperties.ScanPasses` | seminar_topic_solver.py:106-109 | a student passes the per-cell checks exactly when all the student's ranks are ≥ 1 and none repeats |
| `LoaderProperties.ScanErrorBlames` | seminar_topic_solver.py:106-109 | a per-cell error names a cell of that student holding the named value, which is below 1, or which the same student gave in a column further left |
| `LoaderProperties.FirstScanPasses` | seminar_topic_solver.py:96-111 | the first pass finds no error exactly when no student has a per-cell error |
| `LoaderProperties.FirstSumPasses` | seminar_topic_solver.py:114-119 | the second pass finds no error exactly when every student's ranks sum to k(k+1)/2 |
| `LoaderProperties.Accepted` | seminar_topic_solver.py:96-119 | the loader succeeds exactly when every student's ranks are 1..k for the student's own k; the check is per student, so students may share rank values |
| `LoaderProperties.Rejected` | seminar_topic_solver.py:106-119 | every error names a real offence: a rank below 1 at the named cell, a repeat of a rank given further left, or a student whose ranks are not 1..k although no rank of any student is below 1 or repeated |
| `LoaderProperties.BelowOneRejected` | seminar_topic_solver.py:106-107 | a rank below 1 in any student's cell makes the loader fail |
| `LoaderProperties.RepeatRejected` | seminar_topic_solver.py:108-109 | a rank one student gives twice makes the loader fail |
| `LoaderProperties.CompletedCosts` | seminar_topic_solver.py:123-133 | a student's completed entries number one per topic; each is in range and carries that topic's cost: its rank if ranked, else the default |
| `LoaderProperties.CompletedOrder` | seminar_topic_solver.py:111-133 | completed entries list ranked topics first in column order, then unranked topics in column order |
| `LoaderProperties.CompletedCovers` | seminar_topic_solver.py:123-133 | every topic has an entry among the student's completed entries |
| `LoaderProperties.AllTriplesSize` | seminar_topic_solver.py:123-135 | the first i students yield i·#topics triples |
| `LoaderProperties.AllTriplesCosts` | seminar_topic_solver.py:123-135 | every triple is in range and carries its pair's cost |
| `LoaderProperties.AllTriplesOrder` | seminar_topic_solver.py:123-135 | triples come student by student, each student's in ranked-then-unranked column order |
| `LoaderProperties.AllTriplesCover` | seminar_topic_solver.py:123-135 | every (student, topic) pair has a triple |
| `LoaderProperties.NormaliseOutput` | seminar_topic_solver.py:80-137 | on success the result holds the students and topics in table order, and exactly one triple per (student, topic) pair (#students·#topics in all). Each triple carries the student's rank or the default cost |
| `LoaderProperties.NormaliseOrder` | seminar_topic_solver.py:96-135 | on success students appear in index order; within a student ranked topics come first in column order, then unranked ones in column order |
| `LoaderProperties.UnrankedStudentCost` | seminar_topic_solver.py:124-125 | a student who ranked nothing gets cost threshold + 1 for every topic |
| `LoaderProperties.RankedStudentCost` | seminar_topic_solver.py:127-135 | a student who ranked k ≥ 1 topics keeps those ranks, and every other topic costs max rank + threshold, where max rank = k |
| `LoaderProperties.UnrankedCostsMore` | seminar_topic_solver.py:125-131 | with a threshold ≥ 1 every unranked topic costs a student more than any topic the student ranked |
| `LoaderProperties.AcceptedCostsPositive` | seminar_topic_solver.py:123-135 | with a threshold ≥ 0 every cost of an accepted table is at least 1 |
| `Solver.Written` | seminar_topic_solver.py:41-44 | the cell (s, t) of a zero matrix after writing the triples in order: the last triple's cost for that pair, else 0 |
| `Solver.MatchedTotal` | seminar_topic_solver.py:56 | `cost_matrix[row_indices, col_indices].sum()` on the filled array |
| `Solver.AverageExceeds` | seminar_topic_solver.py:58-61 | `total / #students > threshold` as an exact quotient; false with no students, where numpy's NaN compares false |
| `Solver.BuildCostMatrix` | seminar_topic_solver.py:41-44 | a fresh #students × #topics matrix whose cell (s, t) is the cost of the last triple for (s, t), or 0 when there is none |
| `Solver.SolveAssignmentProblem` | seminar_topic_solver.py:38-61 | the total is the sum of the matched cells of the matrix built from the triples; the warning fires exactly when there is at least one student and total > threshold · #students |
| `Solver.MatchedTotalIsCost` | seminar_topic_solver.py:56 | summing the matched cells of the filled matrix equals the matched cost computed from the triples |
| `Solver.AverageExceedsIff` | seminar_topic_solver.py:58-61 | average = total / #students exceeds the threshold exactly when #students > 0 and total > threshold · #students |
| `Solver.WrittenOnce` | seminar_topic_solver.py:42-44 | a pair with exactly one triple ends with that triple's cost in the matrix |
| `Solver.FilledFromLoader` | seminar_topic_solver.py:41-44 | filling from the loader's triples sets every cell to that pair's cost, so with a threshold ≥ 0 no cell keeps its initial 0 |
| `Solver.MatchedCostAtMost` | seminar_topic_solver.py:56 | a matching whose every matched cell costs at most c has total at most c per matched pair |
| `Solver.NoWarningWithinThreshold` | seminar_topic_solver.py:56-61 | if each of the n students is matched to a cell costing at most the threshold, the warning does not fire |
| `Scenarios.ExampleNormalised` | seminar_topic_solver.py:86-137 | a three-student table, with rank 1 shared by all students, yields the listed nine triples with defaults 1+3 and 2+3 |
| `Scenarios.ExampleStatistics` | seminar_topic_solver.py:56-61 | matching each example student to their rank-1 topic costs 3, average 1, no warning |
| `Scenarios.GapRejected` | seminar_topic_solver.py:113-119 | a student ranking {1, 3} is rejected by the sum check |
| `Scenarios.RepeatExample` | seminar_topic_solver.py:108-109 | a student giving rank 1 twice is rejected as not unique at the second cell |
| `Scenarios.BelowOneExample` | seminar_topic_solver.py:106-107 | a rank 0 is rejected as below 1 |

## Left out

- Reading the file with `open` and `csv.reader` (seminar_topic_solver.py:75-78) is I/O. The model starts from the table already split into a header row and student rows.
- `int()` parsing of a cell (seminar_topic_solver.py:103) is not modelled. A cell is `Empty` or `Rank(n)` for an integer n. Text that `int()` refuses, and its whitespace, sign and underscore rules, are outside the model.
- An empty file (`IndexError` at line 81) and a blank student line (`IndexError` at line 84) are not modelled. The `Table` datatype always has a header row, and every `Row` has a label.
- A student row shorter than the topic list raises `IndexError` at line 98. This is the `WellFormed` precondition instead. Longer rows are accepted, and their extra cells are ignored, as in the source.
- The error messages' text (lines 107, 109, 119) is not modelled. The `Error` datatype records the student, topic and value each message names.
- `scipy.optimize.linear_sum_assignment` (line 48) is an external library. The matching is an input with the `IsMatching` precondition. Its optimality is the library's promise and is not modelled. Fewer topics than students is not checked by the source and is not modelled.
- The numpy float matrix and float average (lines 41, 56-58) are modelled as integers and an exact `real` quotient. A threshold large enough that a default cost, the total or the average exceeds 2^53 in magnitude is rounded by float64 in the source; that rounding is not modelled. With no students numpy divides 0.0 by 0 and gets NaN, which compares false, so `AverageExceeds` is false there.
- The float `k * (k + 1) / 2` (line 117) is modelled as integer division. `Ranks.TriExact` shows the two agree. Float rounding for k beyond 2^26 is not modelled.
- Printing the total, the average, the warning text and the assignment (lines 57-68) is left out. So is the `argparse` setup (lines 144-161). The threshold is a parameter.
- Solver.BuildCostMatrix: requires every triple to be inside the matrix. numpy would raise `IndexError` for indices out of range. The loader only produces indices in range (`LoaderProperties.NormaliseOutput`).
- Loader.ParseCsv: the source mutates the lists of lists in place. The model keeps them as `seq` values, reassigned by the passes, with the third pass building each student's completed list as a local value.
