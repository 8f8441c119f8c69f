# School enrollment statistics — a Dafny model

This project models the logic of `school_data.py`, a terminal report of
high-school enrollment statistics. The report has three parts:

- the **school directory**: one scan over the rows of the school table maps each
  school name to its code and to a positional index. The first row with a
  name fixes its entry; later rows with the same name are ignored.
- the **resolver**: one attempt to match what the user typed. A school code
  is tried first, then a school name. If neither matches, the input is invalid.
- the **enrollment cube**: a 10 × 20 × 3 (year × school × grade) array of
  counts, some of them missing, and the queries the report makes of it.
  These are one grade's ten-year series, a school's highest and lowest count,
  its yearly totals, its ten-year total and mean, its per-grade means, and
  the median of its counts above 500. Over all schools there are the 2013
  and 2022 means, the 2022 graduating class, and the highest and lowest
  count.

A missing count (NaN in the source) is `None` in an `Option<nat>` cell.
Every reduction skips it: it never adds to a sum or a count, and it is never
an extremum or part of a median. Counts are non-negative, so the source's
`int(...)` truncation and its `//` are floor division on naturals.

Files:

- `wrappers.dfy`: the `Option` type.
- `nan_reductions.dfy`: the NaN-skipping reductions (sum, max, min, floor
  mean, the over-500 filter, sorting, the truncated median) and flattening
  in row-major order.
- `school_directory.dfy`: the directory scan, as a specification function
  (`Build`) and as the source's loop over a mutable map and counter
  (`BuildDirectory`), plus the resolver.
- `school_data.dfy`: the cube, the per-school and global queries, and the
  report's arithmetic, including the loop that adds up the ten yearly totals.

## Model

| member | source | states |
|---|---|---|
| `SchoolDirectory.Build` | school_data.py:19-25 | The scan as a fold of `Record` from the left: a new name gets the row's code and the number of entries so far as its index, and a repeated name changes nothing. Each row adds at most one entry. |
| `SchoolDirectory.BuildRecordsNextRow` | school_data.py:19-25 | Scanning one more row records that row into the directory built from the rows before it. |
| `SchoolDirectory.BuildDirectory` | school_data.py:16-25 | The loop over the rows with a mutable dictionary and a counter produces exactly `Build(rows)`. The final count equals the number of entries, which is the number of distinct names. |
| `SchoolDirectory.BuildKeys` | school_data.py:19-25 | The directory has exactly one entry per distinct name in the rows. |
| `SchoolDirectory.BuildIndexedByPosition` | school_data.py:19-25 | Indices are pairwise distinct, each is below the number of entries, and every position 0 .. count-1 is used by some name. |
| `SchoolDirectory.RecordKeepsIndexedByPosition` | school_data.py:23-25 | A single step of the scan preserves that numbering of the schools. |
| `SchoolDirectory.BuildKeepsEntries` | school_data.py:23-25 | An entry, once made, is never changed by the rows that follow. |
| `SchoolDirectory.FirstOccurrenceFixesEntry` | school_data.py:19-25 | A name's entry holds the code of its first row. Its index is the number of distinct names seen before that row. |
| `SchoolDirectory.DuplicateRowIgnored` | school_data.py:23-25 | Removing a row whose name already appeared earlier leaves the final directory unchanged. |
| `SchoolDirectory.Resolve` | school_data.py:40-47 | Input matching a school's code yields that code and the first-entered school with it, ahead of any name match. Otherwise, input that is a school name yields that school's code and the name. Otherwise the result is `None` (the `ValueError` path). Any result is an actual directory entry. |
| `SchoolDirectory.ResolveFindsEachSchool` | school_data.py:40-45 | When codes are unique and no name is spelled like a code, every school is found by its code and also by its name. |
| `SchoolData.BuiltDirectoryFitsCube` | school_data.py:19-25 | If the table names twenty schools, every name in the built directory has an index that is a school row of the cube. |
| `SchoolData.GetEnrollment` | school_data.py:63-72 | The result has ten elements. Element `y` is the cube cell of that year, the school's index and column `grade - 10`, with missing markers kept. |
| `SchoolData.SchoolCells` | school_data.py:92 | The school's slice has 10 x 3 cells, row by row: position `y * 3 + g` holds `cube[y][s][g]`. A value is in it exactly when some year and grade of the school holds it. |
| `SchoolData.YearCells` | school_data.py:141-142 | The year's slice has 20 x 3 cells, row by row: position `s * 3 + g` holds `cube[y][s][g]`. A value is in it exactly when some school and grade of that year holds it. |
| `SchoolData.AllCells` | school_data.py:148-149 | A cell occurs in the flattened cube exactly when some year, school and grade holds it. |
| `SchoolData.SchoolMaxIsNanMax` | school_data.py:95 | The school's nanmax is `None` exactly when all its cells are missing. Otherwise it is one of its cells and at least every present one. |
| `SchoolData.SchoolMinIsNanMin` | school_data.py:96 | The dual for nanmin: one of the school's cells, and at most every present one. |
| `SchoolData.YearTotals` | school_data.py:97 | There is one total per year, the sum of that year's present grade counts for the school. |
| `SchoolData.SchoolStatistics` | school_data.py:88-106 | `highest` and `lowest` are the school's largest and smallest present counts, each attained by a cell. `totalPerYear[y]` is the NaN-skipping sum of year `y`'s three grades. |
| `SchoolData.TotalsAgreeWithEnrollment` | school_data.py:64-97 | For every year, the three grade series of `GetEnrollment` add up, missing cells skipped, to that year's entry of `total_enrollment_per_year`. |
| `SchoolData.TenYearTotalIsSchoolSum` | school_data.py:97 | The ten yearly totals add up to the sum of every present count of the school. |
| `SchoolData.TenYearEnrollment` | school_data.py:188-194 | The total accumulated in the loop is the sum of the ten yearly totals, which equals the sum of every present count of the school. The mean is the floor of that total divided by 10. |
| `SchoolData.GradeMean` | school_data.py:175-180 | The result is `None` exactly when every year of that grade is missing. Otherwise it is the floor of the sum over the count of present years, and it lies between two present counts of that grade. |
| `SchoolData.CheckEnrollmentOver500` | school_data.py:116-129 | The result is `None` exactly when no present count of the school exceeds 500. Otherwise it is the truncated median of the school's counts above 500, taken in year-then-grade order with repeats. That value exceeds 500 and lies between two over-500 counts of the school. |
| `SchoolData.Over500MedianSplits` | school_data.py:123-128 | When a median is reported, at least half of the school's counts above 500 (with repeats) are at most it, and at least half are at least it. |
| `SchoolData.GraduatingCells` | school_data.py:145 | One cell per school: its grade-12 count of 2022. |
| `SchoolData.GeneralStatistics` | school_data.py:140-149 | The 2013 and 2022 means are floor means of those years' present cells. The graduating class is the sum of the 2022 grade-12 counts with missing read as 0. `highest` and `lowest` bound every present cell of the cube and are attained. |
| `SchoolData.YearMeanBracketed` | school_data.py:141-142 | The truncated mean of a year is absent exactly when all that year's counts are missing. Otherwise it lies between two present counts of the year. |
| `SchoolData.SchoolMaxima` | school_data.py:95 | Entry `s` is school `s`'s highest present count, or `None` if it has none. |
| `SchoolData.SchoolMinima` | school_data.py:96 | Entry `s` is school `s`'s lowest present count, or `None` if it has none. |
| `SchoolData.CubeMaxIsNanMax` | school_data.py:148 | The nanmax of the cube bounds every present cell and is attained, or is `None` if all cells are missing. |
| `SchoolData.CubeMinIsNanMin` | school_data.py:149 | The dual for the nanmin of the cube. |
| `SchoolData.SchoolMajorSameCells` | school_data.py:92-149 | A cell occurs in the per-school slices laid end to end exactly when it occurs somewhere in the cube. |
| `SchoolData.GlobalMaxIsMaxOfSchoolMaxima` | school_data.py:95-148 | The highest count over all schools is the highest of the per-school highest counts. |
| `SchoolData.GlobalMinIsMinOfSchoolMinima` | school_data.py:96-149 | The lowest count over all schools is the lowest of the per-school lowest counts. |
| `NanReductions.Present` | school_data.py:95-97 | The present values are exactly the values of the non-missing cells, and there are no more of them than cells. |
| `NanReductions.PresentCounts` | school_data.py:95-97 | Each value occurs among the present values exactly as often as a cell holds it. Only missing cells are dropped. |
| `NanReductions.PresentAppend` | school_data.py:97 | Taking the present values distributes over concatenation. |
| `NanReductions.SumAppend` | school_data.py:192 | Sums distribute over concatenation. |
| `NanReductions.NanSum` | school_data.py:97 | A slice with nothing present sums to 0. Every present value is at most the sum. |
| `NanReductions.NanSumIsZeroFilledSum` | school_data.py:145 | nansum equals the plain sum after reading each missing cell as 0. |
| `NanReductions.NanSumFlatten` | school_data.py:97 | The nansum of rows laid end to end is the sum of the per-row nansums. |
| `NanReductions.NanMax` | school_data.py:95 | The result is `None` exactly when every cell is missing. Otherwise it is one of the cells and at least every present value. |
| `NanReductions.NanMin` | school_data.py:96 | The result is `None` exactly when every cell is missing. Otherwise it is one of the cells and at most every present value. |
| `NanReductions.MaxOf` | school_data.py:95 | The larger of two possibly missing counts is one of them, is missing only if both are, and is at least each present one. |
| `NanReductions.MinOf` | school_data.py:96 | The smaller of two possibly missing counts is one of them, is missing only if both are, and is at most each present one. |
| `NanReductions.NanMaxAppend` | school_data.py:148 | The nanmax of two slices laid end to end is the larger of their nanmaxes. |
| `NanReductions.NanMinAppend` | school_data.py:149 | The nanmin of two slices laid end to end is the smaller of their nanmins. |
| `NanReductions.NanMaxFlatten` | school_data.py:148 | The nanmax of rows laid end to end is the nanmax of the per-row nanmaxes. |
| `NanReductions.NanMinFlatten` | school_data.py:149 | The nanmin of rows laid end to end is the nanmin of the per-row nanmins. |
| `NanReductions.NanMaxSameCells` | school_data.py:148 | The nanmax depends only on which cells occur, not on their order or repetition. |
| `NanReductions.NanMinSameCells` | school_data.py:149 | The nanmin depends only on which cells occur, not on their order or repetition. |
| `NanReductions.FloorMean` | school_data.py:178 | The result is `None` exactly when nothing is present. Otherwise `m * n <= sum < (m + 1) * n` for the `n` present values, and the mean lies between their nanmin and nanmax. |
| `NanReductions.FloorMeanAtPositions` | school_data.py:178 | The floor mean is absent exactly when every cell is missing. Otherwise it lies between the values of two present cells. |
| `NanReductions.SumAtLeast` | school_data.py:178 | Values all at least `lo` sum to at least `lo` times their count. |
| `NanReductions.SumAtMost` | school_data.py:178 | Values all at most `hi` sum to at most `hi` times their count. |
| `NanReductions.FloorDivBetween` | school_data.py:178 | A sum bounded by `lo * n` and `hi * n` has a floor quotient by `n` between `lo` and `hi`. |
| `NanReductions.Flatten` | school_data.py:92 | A value is in the flattened rows exactly when it is in one of the rows. |
| `NanReductions.FlattenUniformLength` | school_data.py:92 | Rows of one width `w` flatten to `|rows| * w` cells. |
| `NanReductions.FlattenUniformAt` | school_data.py:92 | Cell `j` of row `i` lands at position `i * w + j` of the flattened rows: row-major order. |
| `NanReductions.OverThreshold` | school_data.py:123 | Its values are exactly the present counts strictly above 500. Each such value occurs exactly as often as a cell holds it, and no other value occurs. |
| `NanReductions.InsertAscending` | school_data.py:128 | Inserting into an ascending sequence keeps it ascending and adds exactly the one value. |
| `NanReductions.Sort` | school_data.py:128 | The result is ascending and a permutation of the input. |
| `NanReductions.AscendingPermutationsEqual` | school_data.py:128 | Two ascending sequences with the same values are equal. |
| `NanReductions.Median` | school_data.py:128 | The result is the floor of the mean of the sorted values at positions `(n-1)/2` and `n/2`. For odd `n` that is the middle value; for even `n` it is the truncated mean of the two middle values. It lies between two of the values. |
| `NanReductions.CountSort` | school_data.py:128 | Sorting keeps how many values, counted with repeats, pass any test. |
| `NanReductions.MedianRanks` | school_data.py:128 | At least half of the values, counted with repeats, are at most the median. At least half are at least the median. |
| `NanReductions.MedianIgnoresOrder` | school_data.py:123-128 | The median depends only on the values collected, not on their order. |

## Left out

- Reading `Assignment3Data.csv` (school_data.py:17-18) is file I/O. The scan works on an abstract sequence of (name, code) rows.
- The prompt and the endless retry loop around the resolver (school_data.py:36-38, 48-49) are interactive I/O with no termination bound. Only one resolve attempt is modelled, with `None` as the invalid-input result.
- All printing is left out, including the shape and dimension report (school_data.py:126, 129, 152-156, 160-164, 171-172, 180, 186-187, 191, 193, and the output of 194). The functions return values instead.
- The yearly tables of `given_data` and their reshape into the cube (school_data.py:7, 12-13): `given_data` is not part of this model. The cube is a parameter of shape 10 × 20 × 3 (`IsCube`).
- Floating point and NumPy's NaN are left out. Cells are `Option<nat>`, and means and medians are computed exactly and then floored. For counts this small, IEEE division followed by `int()` gives the same floor.
- Reductions over an all-missing slice: NumPy returns NaN there, and the source's `int(...)` then raises. The model returns `None` instead.
- `SchoolData.GetEnrollment`: a grade outside 10..12 is excluded by its precondition. NumPy would accept 7..9 as negative column indices. The report only ever passes 10, 11 and 12.
- The queries taking a school name (`GetEnrollment`, `SchoolStatistics`, `CheckEnrollmentOver500`, `GradeMean`, `TenYearEnrollment`) require the name to be in the directory with an index below 20. The source raises an uncaught `KeyError` or `IndexError` otherwise, and only ever passes a resolved name.
- `SchoolDirectory.Resolve` requires distinct indices. Python dictionaries iterate in insertion order, and in a directory built by the scan that order is index order. So "the first school with this code" is modelled as the one with the smallest index. `BuildIndexedByPosition` shows every scanned directory meets the requirement.
- The source assumes twenty schools but never checks it, and neither does the model. Indices are 0 .. count-1 for however many distinct names the table holds, and `BuiltDirectoryFitsCube` states what holds when there are twenty. A code shared by several schools resolves to the first one entered.
- The report's ten-year mean divides by `len(years)`, which is always 10. The model uses the constant `Years`.
