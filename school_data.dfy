/**
 * The enrollment cube (year x school x grade) and the queries the report
 * makes of it: one grade's ten-year series, a school's extremes and yearly
 * totals, the median of its counts above 500, the grade means, the
 * ten-year total and mean, and the statistics over all schools.
 */
module SchoolData {
  import opened Wrappers
  import opened NanReductions
  import opened SchoolDirectory

  /** Years 2013 .. 2022 are indices 0 .. 9. */
  const Years: nat := 10
  const Schools: nat := 20
  /** Grades 10, 11, 12 are indices 0, 1, 2. */
  const Grades: nat := 3
  const FirstGrade: nat := 10
  const LastYear: nat := 9
  const LastGrade: nat := 2

  type Cube = seq<seq<seq<Cell>>>

  /** The cube has the shape (10, 20, 3). */
  ghost predicate IsCube(cube: Cube)
  {
    && |cube| == Years
    && forall y :: 0 <= y < Years ==>
         |cube[y]| == Schools && forall s :: 0 <= s < Schools ==> |cube[y][s]| == Grades
  }

  /** `name` is in the directory and its index is a school row of the cube. */
  predicate Known(dir: Directory, name: string)
  {
    name in dir && dir[name].index < Schools
  }

  /** A directory built from the school table fits the cube when the table names twenty schools. */
  lemma BuiltDirectoryFitsCube(rows: seq<Row>, name: string)
    requires |Names(rows)| == Schools
    requires name in Names(rows)
    ensures Known(Build(rows), name)
  {
    BuildKeys(rows);
    BuildIndexedByPosition(rows);
  }

  /** getEnrollment: one grade of one school, year by year, missing markers kept. */
  function GetEnrollment(cube: Cube, dir: Directory, grade: int, name: string): (series: seq<Cell>)
    requires IsCube(cube) && Known(dir, name)
    requires FirstGrade <= grade < FirstGrade + Grades
    ensures |series| == Years
    ensures forall y :: 0 <= y < Years ==> series[y] == cube[y][dir[name].index][grade - FirstGrade]
  {
    seq(Years, y requires 0 <= y < Years => cube[y][dir[name].index][grade - FirstGrade])
  }

  /** The 10 x 3 slice of school `s`, one year's three grades after another. */
  function SchoolCells(cube: Cube, s: nat): (cells: seq<Cell>)
    requires IsCube(cube) && s < Schools
    ensures forall c :: c in cells <==>
      exists y, g :: 0 <= y < Years && 0 <= g < Grades && cube[y][s][g] == c
    ensures |cells| == Years * Grades
    ensures forall y, g :: 0 <= y < Years && 0 <= g < Grades ==> cells[y * Grades + g] == cube[y][s][g]
  {
    var rows := seq(Years, y requires 0 <= y < Years => cube[y][s]);
    assert forall y :: 0 <= y < Years ==> rows[y] == cube[y][s];
    FlattenUniformLength(rows, Grades);
    forall y, g | 0 <= y < Years && 0 <= g < Grades
      ensures Flatten(rows)[y * Grades + g] == cube[y][s][g]
    {
      FlattenUniformAt(rows, Grades, y, g);
    }
    Flatten(rows)
  }

  /** The 20 x 3 slice of year `y`, one school's three grades after another. */
  function YearCells(cube: Cube, y: nat): (cells: seq<Cell>)
    requires IsCube(cube) && y < Years
    ensures forall c :: c in cells <==>
      exists s, g :: 0 <= s < Schools && 0 <= g < Grades && cube[y][s][g] == c
    ensures |cells| == Schools * Grades
    ensures forall s, g :: 0 <= s < Schools && 0 <= g < Grades ==> cells[s * Grades + g] == cube[y][s][g]
  {
    FlattenUniformLength(cube[y], Grades);
    forall s, g | 0 <= s < Schools && 0 <= g < Grades
      ensures Flatten(cube[y])[s * Grades + g] == cube[y][s][g]
    {
      FlattenUniformAt(cube[y], Grades, s, g);
    }
    Flatten(cube[y])
  }

  /** Every cell of the cube. */
  function AllCells(cube: Cube): (cells: seq<Cell>)
    requires IsCube(cube)
    ensures forall c :: c in cells <==>
      exists y, s, g :: 0 <= y < Years && 0 <= s < Schools && 0 <= g < Grades && cube[y][s][g] == c
  {
    var rows := seq(Years, y requires 0 <= y < Years => YearCells(cube, y));
    var cells := Flatten(rows);
    assert forall c :: c in cells <==>
      exists y, s, g :: 0 <= y < Years && 0 <= s < Schools && 0 <= g < Grades && cube[y][s][g] == c
    by {
      forall c ensures c in cells <==>
        exists y, s, g :: 0 <= y < Years && 0 <= s < Schools && 0 <= g < Grades && cube[y][s][g] == c
      {
        if c in cells {
          var y :| 0 <= y < Years && c in rows[y];
          assert c in YearCells(cube, y);
        }
        if exists y, s, g :: 0 <= y < Years && 0 <= s < Schools && 0 <= g < Grades && cube[y][s][g] == c {
          var y, s, g :| 0 <= y < Years && 0 <= s < Schools && 0 <= g < Grades && cube[y][s][g] == c;
          assert c in YearCells(cube, y) && rows[y] == YearCells(cube, y);
        }
      }
    }
    cells
  }

  /** The sum of the present grade counts of school `s`, year by year. */
  function YearTotals(cube: Cube, s: nat): (totals: seq<nat>)
    requires IsCube(cube) && s < Schools
    ensures |totals| == Years
    ensures forall y :: 0 <= y < Years ==> totals[y] == NanSum(cube[y][s])
  {
    seq(Years, y requires 0 <= y < Years => NanSum(cube[y][s]))
  }

  /** `m` is the largest present count of school `s`, or `None` when all its counts are missing. */
  ghost predicate IsSchoolMax(cube: Cube, s: nat, m: Option<nat>)
    requires IsCube(cube) && s < Schools
  {
    && (m.None? <==> forall y, g :: 0 <= y < Years && 0 <= g < Grades ==> cube[y][s][g].None?)
    && (m.Some? ==>
          && (exists y, g :: 0 <= y < Years && 0 <= g < Grades && cube[y][s][g] == m)
          && forall y, g :: 0 <= y < Years && 0 <= g < Grades && cube[y][s][g].Some? ==>
               cube[y][s][g].value <= m.value)
  }

  /** `m` is the smallest present count of school `s`, or `None` when all its counts are missing. */
  ghost predicate IsSchoolMin(cube: Cube, s: nat, m: Option<nat>)
    requires IsCube(cube) && s < Schools
  {
    && (m.None? <==> forall y, g :: 0 <= y < Years && 0 <= g < Grades ==> cube[y][s][g].None?)
    && (m.Some? ==>
          && (exists y, g :: 0 <= y < Years && 0 <= g < Grades && cube[y][s][g] == m)
          && forall y, g :: 0 <= y < Years && 0 <= g < Grades && cube[y][s][g].Some? ==>
               m.value <= cube[y][s][g].value)
  }

  lemma SchoolMaxIsNanMax(cube: Cube, s: nat)
    requires IsCube(cube) && s < Schools
    ensures IsSchoolMax(cube, s, NanMax(SchoolCells(cube, s)))
  {
    var cells := SchoolCells(cube, s);
    var m := NanMax(cells);
    forall y, g | 0 <= y < Years && 0 <= g < Grades ensures cube[y][s][g] in cells {
    }
  }

  lemma SchoolMinIsNanMin(cube: Cube, s: nat)
    requires IsCube(cube) && s < Schools
    ensures IsSchoolMin(cube, s, NanMin(SchoolCells(cube, s)))
  {
    var cells := SchoolCells(cube, s);
    var m := NanMin(cells);
    forall y, g | 0 <= y < Years && 0 <= g < Grades ensures cube[y][s][g] in cells {
    }
  }

  datatype SchoolStats = SchoolStats(highest: Option<nat>, lowest: Option<nat>, totalPerYear: seq<nat>)

  /**
   * getSchoolStatistics: the largest and the smallest present count of the
   * school over all years and grades (`None` when all are missing), and
   * for each year the sum of its present grade counts.
   */
  function SchoolStatistics(cube: Cube, dir: Directory, name: string): (st: SchoolStats)
    requires IsCube(cube) && Known(dir, name)
    ensures IsSchoolMax(cube, dir[name].index, st.highest)
    ensures IsSchoolMin(cube, dir[name].index, st.lowest)
    ensures |st.totalPerYear| == Years
    ensures forall y :: 0 <= y < Years ==> st.totalPerYear[y] == NanSum(cube[y][dir[name].index])
  {
    var s := dir[name].index;
    var cells := SchoolCells(cube, s);
    SchoolMaxIsNanMax(cube, s);
    SchoolMinIsNanMin(cube, s);
    SchoolStats(NanMax(cells), NanMin(cells), YearTotals(cube, s))
  }

  /** For every year, the three grades of getEnrollment add up to that year's total. */
  lemma TotalsAgreeWithEnrollment(cube: Cube, dir: Directory, name: string, y: nat)
    requires IsCube(cube) && Known(dir, name) && y < Years
    ensures NanSum([GetEnrollment(cube, dir, 10, name)[y],
                    GetEnrollment(cube, dir, 11, name)[y],
                    GetEnrollment(cube, dir, 12, name)[y]])
            == SchoolStatistics(cube, dir, name).totalPerYear[y]
  {
    var row := cube[y][dir[name].index];
    assert [GetEnrollment(cube, dir, 10, name)[y],
            GetEnrollment(cube, dir, 11, name)[y],
            GetEnrollment(cube, dir, 12, name)[y]] == row;
  }

  /** The yearly totals of a school add up to the sum of all its present counts. */
  lemma TenYearTotalIsSchoolSum(cube: Cube, s: nat)
    requires IsCube(cube) && s < Schools
    ensures Sum(YearTotals(cube, s)) == NanSum(SchoolCells(cube, s))
  {
    var rows := seq(Years, y requires 0 <= y < Years => cube[y][s]);
    NanSumFlatten(rows);
    assert seq(|rows|, i requires 0 <= i < |rows| => NanSum(rows[i])) == YearTotals(cube, s);
  }

  /**
   * The report's ten-year figures: the yearly totals of getSchoolStatistics
   * accumulated in a loop, and that total floor-divided by the number of years.
   */
  method TenYearEnrollment(cube: Cube, dir: Directory, name: string) returns (total: nat, mean: nat)
    requires IsCube(cube) && Known(dir, name)
    ensures total == Sum(YearTotals(cube, dir[name].index))
    ensures total == NanSum(SchoolCells(cube, dir[name].index))
    ensures mean * Years <= total < (mean + 1) * Years
  {
    var perYear := YearTotals(cube, dir[name].index);
    total := 0;
    for i := 0 to |perYear|
      invariant total == Sum(perYear[..i])
    {
      SumAppend(perYear[..i], [perYear[i]]);
      assert perYear[..i + 1] == perYear[..i] + [perYear[i]];
      total := total + perYear[i];
    }
    assert perYear[..|perYear|] == perYear;
    TenYearTotalIsSchoolSum(cube, dir[name].index);
    mean := total / Years;
  }

  /**
   * The report's mean for one grade: the sum of the grade's present counts
   * floor-divided by how many are present; `None` when none is.
   */
  function GradeMean(cube: Cube, dir: Directory, grade: int, name: string): (m: Option<nat>)
    requires IsCube(cube) && Known(dir, name)
    requires FirstGrade <= grade < FirstGrade + Grades
    ensures var s, g := dir[name].index, grade - FirstGrade;
      && (m.None? <==> forall y :: 0 <= y < Years ==> cube[y][s][g].None?)
      && (m.Some? ==>
            && (exists y :: 0 <= y < Years && cube[y][s][g].Some? && cube[y][s][g].value <= m.value)
            && (exists y :: 0 <= y < Years && cube[y][s][g].Some? && m.value <= cube[y][s][g].value))
    ensures m.Some? ==>
      var series := GetEnrollment(cube, dir, grade, name);
      IsFloorQuotient(m.value, NanSum(series), |Present(series)|)
  {
    var series := GetEnrollment(cube, dir, grade, name);
    FloorMeanAtPositions(series);
    FloorMean(series)
  }

  /**
   * checkEnrollmentOver500: `None` when no present count of the school is
   * above 500 ("No enrollments over 500."); otherwise the truncated median
   * of those counts.
   */
  function CheckEnrollmentOver500(cube: Cube, dir: Directory, name: string): (r: Option<nat>)
    requires IsCube(cube) && Known(dir, name)
    ensures var s := dir[name].index;
      && (r.None? <==>
            forall y, g :: 0 <= y < Years && 0 <= g < Grades && cube[y][s][g].Some? ==>
              cube[y][s][g].value <= Threshold)
      && (r.Some? ==>
            && Threshold < r.value
            && (exists y, g :: 0 <= y < Years && 0 <= g < Grades && cube[y][s][g].Some? &&
                  Threshold < cube[y][s][g].value <= r.value)
            && (exists y, g :: 0 <= y < Years && 0 <= g < Grades && cube[y][s][g].Some? &&
                  r.value <= cube[y][s][g].value))
    ensures r.Some? ==>
      var over := OverThreshold(SchoolCells(cube, dir[name].index));
      |over| > 0 && r.value == Median(over)
  {
    var s := dir[name].index;
    var cells := SchoolCells(cube, s);
    var over := OverThreshold(cells);
    if over == [] then
      assert forall c :: c in cells && c.Some? ==> c.value <= Threshold by {
        forall c | c in cells && c.Some? ensures Threshold < c.value ==> c.value in over {
        }
      }
      None
    else
      var m := Median(over);
      var lo :| lo in over && lo <= m;
      var hi :| hi in over && m <= hi;
      assert Some(lo) in cells && Some(hi) in cells;
      assert over[0] in over;
      Some(m)
  }

  /**
   * The reported median splits the school's counts above 500 in half: at
   * least half of them, counted with repeats, are at most it, and at least
   * half are at least it.
   */
  lemma Over500MedianSplits(cube: Cube, dir: Directory, name: string)
    requires IsCube(cube) && Known(dir, name)
    ensures var r := CheckEnrollmentOver500(cube, dir, name);
      var over := OverThreshold(SchoolCells(cube, dir[name].index));
      r.Some? ==>
        && (|over| + 1) / 2 <= Count(over, AtMost(r.value))
        && (|over| + 1) / 2 <= Count(over, AtLeast(r.value))
  {
    var over := OverThreshold(SchoolCells(cube, dir[name].index));
    if over != [] {
      MedianRanks(over);
    }
  }

  datatype GeneralStats = GeneralStats(
    mean2013: Option<nat>,
    mean2022: Option<nat>,
    graduating2022: nat,
    highest: Option<nat>,
    lowest: Option<nat>)

  /** The grade-12 counts of 2022, school by school. */
  function GraduatingCells(cube: Cube): (cells: seq<Cell>)
    requires IsCube(cube)
    ensures |cells| == Schools
    ensures forall s :: 0 <= s < Schools ==> cells[s] == cube[LastYear][s][LastGrade]
  {
    seq(Schools, s requires 0 <= s < Schools => cube[LastYear][s][LastGrade])
  }

  /** `m` is the largest present count of the whole cube, or `None` when every count is missing. */
  ghost predicate IsCubeMax(cube: Cube, m: Option<nat>)
    requires IsCube(cube)
  {
    && (m.None? <==>
          forall y, s, g :: 0 <= y < Years && 0 <= s < Schools && 0 <= g < Grades ==> cube[y][s][g].None?)
    && (m.Some? ==>
          && (exists y, s, g :: 0 <= y < Years && 0 <= s < Schools && 0 <= g < Grades && cube[y][s][g] == m)
          && forall y, s, g :: 0 <= y < Years && 0 <= s < Schools && 0 <= g < Grades && cube[y][s][g].Some? ==>
               cube[y][s][g].value <= m.value)
  }

  /** `m` is the smallest present count of the whole cube, or `None` when every count is missing. */
  ghost predicate IsCubeMin(cube: Cube, m: Option<nat>)
    requires IsCube(cube)
  {
    && (m.None? <==>
          forall y, s, g :: 0 <= y < Years && 0 <= s < Schools && 0 <= g < Grades ==> cube[y][s][g].None?)
    && (m.Some? ==>
          && (exists y, s, g :: 0 <= y < Years && 0 <= s < Schools && 0 <= g < Grades && cube[y][s][g] == m)
          && forall y, s, g :: 0 <= y < Years && 0 <= s < Schools && 0 <= g < Grades && cube[y][s][g].Some? ==>
               m.value <= cube[y][s][g].value)
  }

  lemma CubeMaxIsNanMax(cube: Cube)
    requires IsCube(cube)
    ensures IsCubeMax(cube, NanMax(AllCells(cube)))
  {
    var cells := AllCells(cube);
    forall y, s, g | 0 <= y < Years && 0 <= s < Schools && 0 <= g < Grades ensures cube[y][s][g] in cells {
    }
  }

  lemma CubeMinIsNanMin(cube: Cube)
    requires IsCube(cube)
    ensures IsCubeMin(cube, NanMin(AllCells(cube)))
  {
    var cells := AllCells(cube);
    forall y, s, g | 0 <= y < Years && 0 <= s < Schools && 0 <= g < Grades ensures cube[y][s][g] in cells {
    }
  }

  /**
   * generalStatistics: the truncated means of 2013 and of 2022, the size of
   * the 2022 graduating class, and the largest and smallest count anywhere
   * in the cube, all skipping missing cells.
   */
  function GeneralStatistics(cube: Cube): (st: GeneralStats)
    requires IsCube(cube)
    ensures st.mean2013 == FloorMean(YearCells(cube, 0))
    ensures st.mean2022 == FloorMean(YearCells(cube, LastYear))
    ensures st.graduating2022 == Sum(seq(Schools, s requires 0 <= s < Schools => ZeroFill(cube[LastYear][s][LastGrade])))
    ensures IsCubeMax(cube, st.highest)
    ensures IsCubeMin(cube, st.lowest)
  {
    var grads := GraduatingCells(cube);
    NanSumIsZeroFilledSum(grads);
    assert seq(|grads|, i requires 0 <= i < |grads| => ZeroFill(grads[i]))
           == seq(Schools, s requires 0 <= s < Schools => ZeroFill(cube[LastYear][s][LastGrade]));
    CubeMaxIsNanMax(cube);
    CubeMinIsNanMin(cube);
    var all := AllCells(cube);
    GeneralStats(
      FloorMean(YearCells(cube, 0)),
      FloorMean(YearCells(cube, LastYear)),
      NanSum(grads),
      NanMax(all),
      NanMin(all))
  }

  /** The largest present count of each school (`None` for a school with nothing present). */
  function SchoolMaxima(cube: Cube): (maxima: seq<Cell>)
    requires IsCube(cube)
    ensures |maxima| == Schools
    ensures forall s :: 0 <= s < Schools ==> IsSchoolMax(cube, s, maxima[s])
  {
    var maxima := seq(Schools, s requires 0 <= s < Schools => NanMax(SchoolCells(cube, s)));
    forall s | 0 <= s < Schools ensures IsSchoolMax(cube, s, maxima[s]) {
      SchoolMaxIsNanMax(cube, s);
    }
    maxima
  }

  /** The smallest present count of each school (`None` for a school with nothing present). */
  function SchoolMinima(cube: Cube): (minima: seq<Cell>)
    requires IsCube(cube)
    ensures |minima| == Schools
    ensures forall s :: 0 <= s < Schools ==> IsSchoolMin(cube, s, minima[s])
  {
    var minima := seq(Schools, s requires 0 <= s < Schools => NanMin(SchoolCells(cube, s)));
    forall s | 0 <= s < Schools ensures IsSchoolMin(cube, s, minima[s]) {
      SchoolMinIsNanMin(cube, s);
    }
    minima
  }

  /**
   * The truncated mean of a year is absent exactly when all its counts are
   * missing; otherwise it lies between two present counts of that year.
   */
  lemma YearMeanBracketed(cube: Cube, y: nat)
    requires IsCube(cube) && y < Years
    ensures var m := FloorMean(YearCells(cube, y));
      && (m.None? <==> forall s, g :: 0 <= s < Schools && 0 <= g < Grades ==> cube[y][s][g].None?)
      && (m.Some? ==>
            && (exists s, g :: 0 <= s < Schools && 0 <= g < Grades && cube[y][s][g].Some? &&
                  cube[y][s][g].value <= m.value)
            && (exists s, g :: 0 <= s < Schools && 0 <= g < Grades && cube[y][s][g].Some? &&
                  m.value <= cube[y][s][g].value))
  {
    var cells := YearCells(cube, y);
    var m := FloorMean(cells);
    forall s, g | 0 <= s < Schools && 0 <= g < Grades ensures cube[y][s][g] in cells {
    }
    if m.Some? {
      assert NanMin(cells).Some? && Some(NanMin(cells).value) in cells;
      var s, g :| 0 <= s < Schools && 0 <= g < Grades && cube[y][s][g] == NanMin(cells);
      assert NanMax(cells).Some? && Some(NanMax(cells).value) in cells;
      var s', g' :| 0 <= s' < Schools && 0 <= g' < Grades && cube[y][s'][g'] == NanMax(cells);
    }
  }

  /** The cells of all schools, school after school, are the cells of the cube. */
  lemma SchoolMajorSameCells(cube: Cube)
    requires IsCube(cube)
    ensures var bySchool := Flatten(seq(Schools, s requires 0 <= s < Schools => SchoolCells(cube, s)));
      forall c :: c in bySchool <==> c in AllCells(cube)
  {
    var rows := seq(Schools, s requires 0 <= s < Schools => SchoolCells(cube, s));
    var all := AllCells(cube);
    forall c ensures c in Flatten(rows) <==> c in all {
      if c in Flatten(rows) {
        var s :| 0 <= s < Schools && c in rows[s];
        assert c in SchoolCells(cube, s);
      }
      if c in all {
        var y, s, g :| 0 <= y < Years && 0 <= s < Schools && 0 <= g < Grades && cube[y][s][g] == c;
        assert c in SchoolCells(cube, s) && rows[s] == SchoolCells(cube, s);
      }
    }
  }

  /** The highest count over all schools is the highest of the per-school highest counts. */
  lemma GlobalMaxIsMaxOfSchoolMaxima(cube: Cube)
    requires IsCube(cube)
    ensures GeneralStatistics(cube).highest == NanMax(SchoolMaxima(cube))
  {
    var rows := seq(Schools, s requires 0 <= s < Schools => SchoolCells(cube, s));
    NanMaxFlatten(rows);
    assert seq(|rows|, i requires 0 <= i < |rows| => NanMax(rows[i])) == SchoolMaxima(cube);
    SchoolMajorSameCells(cube);
    NanMaxSameCells(Flatten(rows), AllCells(cube));
  }

  /** The lowest count over all schools is the lowest of the per-school lowest counts. */
  lemma GlobalMinIsMinOfSchoolMinima(cube: Cube)
    requires IsCube(cube)
    ensures GeneralStatistics(cube).lowest == NanMin(SchoolMinima(cube))
  {
    var rows := seq(Schools, s requires 0 <= s < Schools => SchoolCells(cube, s));
    NanMinFlatten(rows);
    assert seq(|rows|, i requires 0 <= i < |rows| => NanMin(rows[i])) == SchoolMinima(cube);
    SchoolMajorSameCells(cube);
    NanMinSameCells(Flatten(rows), AllCells(cube));
  }
}
