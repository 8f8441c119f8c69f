/**
 * Reductions over enrollment counts in which some cells may be missing.
 * NumPy's NaN-skipping reductions (nansum, nanmax, nanmin, nanmean,
 * nanmedian) are modelled over `Option<nat>` cells: a missing cell is
 * `None` and is never part of a sum, a count, an extremum or a median.
 * Counts are non-negative, so truncating a mean with `int(...)` is floor
 * division on naturals.
 */
module NanReductions {
  import opened Wrappers

  /** One enrollment count, or the missing marker. */
  type Cell = Option<nat>

  /** The present values of `cells`, in order. */
  function Present(cells: seq<Cell>): (vs: seq<nat>)
    ensures |vs| <= |cells|
    ensures forall v :: v in vs <==> Some(v) in cells
  {
    if cells == [] then []
    else
      assert cells == [cells[0]] + cells[1..];
      match cells[0]
      case None => Present(cells[1..])
      case Some(v) => [v] + Present(cells[1..])
  }

  /** Each value is present as many times as a cell holds it: missing cells are only dropped. */
  lemma {:induction false} PresentCounts(cells: seq<Cell>)
    ensures forall v :: multiset(Present(cells))[v] == multiset(cells)[Some(v)]
  {
    if cells != [] {
      assert cells == [cells[0]] + cells[1..];
      assert multiset(cells) == multiset{cells[0]} + multiset(cells[1..]);
      PresentCounts(cells[1..]);
    }
  }

  lemma {:induction false} PresentAppend(a: seq<Cell>, b: seq<Cell>)
    ensures Present(a + b) == Present(a) + Present(b)
  {
    if a == [] {
      assert a + b == b;
    } else {
      assert (a + b)[0] == a[0];
      assert (a + b)[1..] == a[1..] + b;
      PresentAppend(a[1..], b);
    }
  }

  function Sum(xs: seq<nat>): nat
  {
    if xs == [] then 0 else xs[0] + Sum(xs[1..])
  }

  lemma {:induction false} SumAppend(a: seq<nat>, b: seq<nat>)
    ensures Sum(a + b) == Sum(a) + Sum(b)
  {
    if a == [] {
      assert a + b == b;
    } else {
      assert (a + b)[0] == a[0];
      assert (a + b)[1..] == a[1..] + b;
      SumAppend(a[1..], b);
    }
  }

  lemma {:induction false} MulMonotone(a: nat, b: nat, n: nat)
    requires a <= b
    ensures a * n <= b * n
  {
    if n > 0 {
      MulMonotone(a, b, n - 1);
      assert a * n == a * (n - 1) + a;
      assert b * n == b * (n - 1) + b;
    }
  }

  lemma {:induction false} SumAtLeast(xs: seq<nat>, lo: nat)
    requires forall v :: v in xs ==> lo <= v
    ensures lo * |xs| <= Sum(xs)
  {
    if xs != [] {
      var tail := xs[1..];
      assert forall v :: v in tail ==> v in xs;
      assert xs[0] in xs;
      SumAtLeast(tail, lo);
      assert lo * |xs| == lo * |tail| + lo;
    }
  }

  lemma {:induction false} SumAtMost(xs: seq<nat>, hi: nat)
    requires forall v :: v in xs ==> v <= hi
    ensures Sum(xs) <= hi * |xs|
  {
    if xs != [] {
      var tail := xs[1..];
      assert forall v :: v in tail ==> v in xs;
      assert xs[0] in xs;
      SumAtMost(tail, hi);
      assert hi * |xs| == hi * |tail| + hi;
    }
  }

  /** nansum: the sum of the present cells; a slice with nothing present sums to 0. */
  function NanSum(cells: seq<Cell>): (total: nat)
    ensures (forall c :: c in cells ==> c.None?) ==> total == 0
    ensures forall c :: c in cells && c.Some? ==> c.value <= total
  {
    var vs := Present(cells);
    assert (forall c :: c in cells ==> c.None?) ==> vs == [] by {
      if vs != [] {
        assert Some(vs[0]) in cells;
      }
    }
    SumAtLeastEach(vs);
    Sum(vs)
  }

  lemma {:induction false} SumAtLeastEach(xs: seq<nat>)
    ensures forall v :: v in xs ==> v <= Sum(xs)
  {
    if xs != [] {
      SumAtLeastEach(xs[1..]);
      assert forall v :: v in xs ==> v == xs[0] || v in xs[1..];
    }
  }

  /** A missing cell read as the count 0. */
  function ZeroFill(c: Cell): nat
  {
    match c
    case None => 0
    case Some(v) => v
  }

  /** nansum agrees with the plain sum once every missing cell is read as 0. */
  lemma {:induction false} NanSumIsZeroFilledSum(cells: seq<Cell>)
    ensures NanSum(cells) == Sum(seq(|cells|, i requires 0 <= i < |cells| => ZeroFill(cells[i])))
  {
    var filled := seq(|cells|, i requires 0 <= i < |cells| => ZeroFill(cells[i]));
    if cells != [] {
      NanSumIsZeroFilledSum(cells[1..]);
      var rest := seq(|cells[1..]|, i requires 0 <= i < |cells[1..]| => ZeroFill(cells[1..][i]));
      assert filled[1..] == rest;
      assert [cells[0]] + cells[1..] == cells;
      PresentAppend([cells[0]], cells[1..]);
      SumAppend(Present([cells[0]]), Present(cells[1..]));
    }
  }

  /** The larger of two possibly missing counts; a missing one never wins. */
  function MaxOf(a: Cell, b: Cell): (r: Cell)
    ensures r == a || r == b
    ensures r.None? <==> a.None? && b.None?
    ensures a.Some? ==> r.Some? && a.value <= r.value
    ensures b.Some? ==> r.Some? && b.value <= r.value
  {
    match a
    case None => b
    case Some(v) => if b.Some? && v < b.value then b else a
  }

  /** The smaller of two possibly missing counts; a missing one never wins. */
  function MinOf(a: Cell, b: Cell): (r: Cell)
    ensures r == a || r == b
    ensures r.None? <==> a.None? && b.None?
    ensures a.Some? ==> r.Some? && r.value <= a.value
    ensures b.Some? ==> r.Some? && r.value <= b.value
  {
    match a
    case None => b
    case Some(v) => if b.Some? && b.value < v then b else a
  }

  /** nanmax: the largest present cell, or `None` when every cell is missing. */
  function NanMax(cells: seq<Cell>): (r: Option<nat>)
    ensures r.None? <==> forall c :: c in cells ==> c.None?
    ensures r.Some? ==> Some(r.value) in cells
    ensures r.Some? ==> forall c :: c in cells && c.Some? ==> c.value <= r.value
  {
    if cells == [] then None
    else
      assert forall c :: c in cells <==> c == cells[0] || c in cells[1..];
      MaxOf(cells[0], NanMax(cells[1..]))
  }

  /** nanmin: the smallest present cell, or `None` when every cell is missing. */
  function NanMin(cells: seq<Cell>): (r: Option<nat>)
    ensures r.None? <==> forall c :: c in cells ==> c.None?
    ensures r.Some? ==> Some(r.value) in cells
    ensures r.Some? ==> forall c :: c in cells && c.Some? ==> r.value <= c.value
  {
    if cells == [] then None
    else
      assert forall c :: c in cells <==> c == cells[0] || c in cells[1..];
      MinOf(cells[0], NanMin(cells[1..]))
  }

  lemma {:induction false} NanMaxAppend(a: seq<Cell>, b: seq<Cell>)
    ensures NanMax(a + b) == MaxOf(NanMax(a), NanMax(b))
  {
    if a == [] {
      assert a + b == b;
    } else {
      assert (a + b)[0] == a[0];
      assert (a + b)[1..] == a[1..] + b;
      NanMaxAppend(a[1..], b);
    }
  }

  lemma {:induction false} NanMinAppend(a: seq<Cell>, b: seq<Cell>)
    ensures NanMin(a + b) == MinOf(NanMin(a), NanMin(b))
  {
    if a == [] {
      assert a + b == b;
    } else {
      assert (a + b)[0] == a[0];
      assert (a + b)[1..] == a[1..] + b;
      NanMinAppend(a[1..], b);
    }
  }

  /** Two slices holding the same cells, in any order or multiplicity, have the same nanmax. */
  lemma NanMaxSameCells(a: seq<Cell>, b: seq<Cell>)
    requires forall c :: c in a <==> c in b
    ensures NanMax(a) == NanMax(b)
  {
    if NanMax(a).Some? {
      assert Some(NanMax(a).value) in b;
      assert Some(NanMax(b).value) in a;
    }
  }

  /** Two slices holding the same cells, in any order or multiplicity, have the same nanmin. */
  lemma NanMinSameCells(a: seq<Cell>, b: seq<Cell>)
    requires forall c :: c in a <==> c in b
    ensures NanMin(a) == NanMin(b)
  {
    if NanMin(a).Some? {
      assert Some(NanMin(a).value) in b;
      assert Some(NanMin(b).value) in a;
    }
  }

  lemma MulCancelLess(a: nat, b: nat, n: nat)
    requires a * n < b * n
    ensures a < b
  {
    if b <= a {
      MulMonotone(b, a, n);
    }
  }

  lemma FloorDivBetween(s: nat, n: nat, lo: nat, hi: nat)
    requires n > 0
    requires lo * n <= s <= hi * n
    ensures lo <= s / n <= hi
  {
    var q := s / n;
    FloorDivision(s, n);
    MulCancelLess(lo, q + 1, n);
    assert (hi + 1) * n == hi * n + n;
    MulCancelLess(q, hi + 1, n);
  }

  /** `q` is `total / n` rounded down. */
  predicate IsFloorQuotient(q: nat, total: nat, n: nat)
  {
    q * n <= total < (q + 1) * n
  }

  /**
   * The mean of the present cells truncated to an integer: nanmean
   * followed by int(), or nansum floor-divided by the count of present
   * cells. `None` when nothing is present (the source divides by zero).
   */
  function FloorMean(cells: seq<Cell>): (r: Option<nat>)
    ensures r.None? <==> forall c :: c in cells ==> c.None?
    ensures r.Some? ==> IsFloorQuotient(r.value, NanSum(cells), |Present(cells)|)
    ensures r.Some? ==>
      NanMin(cells).Some? && NanMax(cells).Some? &&
      NanMin(cells).value <= r.value <= NanMax(cells).value
  {
    var vs := Present(cells);
    if vs == [] then
      NothingPresent(cells);
      None
    else
      MeanWithinExtremes(cells);
      FloorDivision(Sum(vs), |vs|);
      Some(Sum(vs) / |vs|)
  }

  /** The floor mean, in terms of positions: absent exactly when every cell is, else between two present cells. */
  lemma FloorMeanAtPositions(cells: seq<Cell>)
    ensures FloorMean(cells).None? <==> forall i :: 0 <= i < |cells| ==> cells[i].None?
    ensures FloorMean(cells).Some? ==>
      && (exists i :: 0 <= i < |cells| && cells[i].Some? && cells[i].value <= FloorMean(cells).value)
      && (exists j :: 0 <= j < |cells| && cells[j].Some? && FloorMean(cells).value <= cells[j].value)
  {
    var m := FloorMean(cells);
    assert forall i :: 0 <= i < |cells| ==> cells[i] in cells;
    if m.Some? {
      var i :| 0 <= i < |cells| && cells[i] == NanMin(cells);
      var j :| 0 <= j < |cells| && cells[j] == NanMax(cells);
    }
  }

  lemma FloorDivision(s: nat, n: nat)
    requires n > 0
    ensures (s / n) * n <= s < (s / n + 1) * n
  {
    assert s == (s / n) * n + s % n;
  }

  lemma NothingPresent(cells: seq<Cell>)
    requires Present(cells) == []
    ensures forall c :: c in cells ==> c.None?
  {
    forall c | c in cells ensures c.Some? ==> c.value in Present(cells) {
    }
  }

  lemma MeanWithinExtremes(cells: seq<Cell>)
    requires Present(cells) != []
    ensures NanMin(cells).Some? && NanMax(cells).Some?
    ensures NanMin(cells).value <= Sum(Present(cells)) / |Present(cells)| <= NanMax(cells).value
  {
    var vs := Present(cells);
    assert Some(vs[0]) in cells;
    var lo := NanMin(cells).value;
    var hi := NanMax(cells).value;
    forall v | v in vs ensures lo <= v <= hi {
      assert Some(v) in cells;
    }
    SumAtLeast(vs, lo);
    SumAtMost(vs, hi);
    FloorDivBetween(Sum(vs), |vs|, lo, hi);
  }

  /** The cells of all rows, row after row (NumPy's row-major order). */
  function Flatten(rows: seq<seq<Cell>>): (r: seq<Cell>)
    ensures forall c :: c in r <==> exists i :: 0 <= i < |rows| && c in rows[i]
  {
    if rows == [] then []
    else
      var rest := Flatten(rows[1..]);
      assert forall c :: c in rest <==> exists i :: 1 <= i < |rows| && c in rows[i] by {
        forall c ensures c in rest <==> exists i :: 1 <= i < |rows| && c in rows[i] {
          if c in rest {
            var i :| 0 <= i < |rows[1..]| && c in rows[1..][i];
            assert c in rows[i + 1];
          }
          if exists i :: 1 <= i < |rows| && c in rows[i] {
            var i :| 1 <= i < |rows| && c in rows[i];
            assert c in rows[1..][i - 1];
          }
        }
      }
      rows[0] + rest
  }

  predicate UniformWidth(rows: seq<seq<Cell>>, w: nat)
  {
    forall i :: 0 <= i < |rows| ==> |rows[i]| == w
  }

  /** Rows of one width `w` flatten to `|rows| * w` cells. */
  lemma {:induction false} FlattenUniformLength(rows: seq<seq<Cell>>, w: nat)
    requires UniformWidth(rows, w)
    ensures |Flatten(rows)| == |rows| * w
  {
    if rows != [] {
      FlattenUniformLength(rows[1..], w);
      MulStep(|rows| - 1, w);
    }
  }

  /** Cell `j` of row `i` lands at position `i * w + j` of the flattened rows. */
  lemma {:induction false} FlattenUniformAt(rows: seq<seq<Cell>>, w: nat, i: nat, j: nat)
    requires UniformWidth(rows, w) && i < |rows| && j < w
    ensures i * w + j < |Flatten(rows)| && Flatten(rows)[i * w + j] == rows[i][j]
  {
    FlattenUniformLength(rows, w);
    MulMonotone(i + 1, |rows|, w);
    MulStep(i, w);
    if 0 < i {
      MulStep(i - 1, w);
      FlattenUniformAt(rows[1..], w, i - 1, j);
    }
  }

  lemma MulStep(i: nat, w: nat)
    ensures (i + 1) * w == i * w + w
  {
  }

  /** nansum of the flattened rows is the sum of the per-row nansums. */
  lemma {:induction false} NanSumFlatten(rows: seq<seq<Cell>>)
    ensures NanSum(Flatten(rows)) == Sum(seq(|rows|, i requires 0 <= i < |rows| => NanSum(rows[i])))
  {
    var sums := seq(|rows|, i requires 0 <= i < |rows| => NanSum(rows[i]));
    if rows != [] {
      NanSumFlatten(rows[1..]);
      assert sums[1..] == seq(|rows[1..]|, i requires 0 <= i < |rows[1..]| => NanSum(rows[1..][i]));
      PresentAppend(rows[0], Flatten(rows[1..]));
      SumAppend(Present(rows[0]), Present(Flatten(rows[1..])));
    }
  }

  /** nanmax of the flattened rows is the nanmax of the per-row nanmaxes. */
  lemma {:induction false} NanMaxFlatten(rows: seq<seq<Cell>>)
    ensures NanMax(Flatten(rows)) == NanMax(seq(|rows|, i requires 0 <= i < |rows| => NanMax(rows[i])))
  {
    var maxima := seq(|rows|, i requires 0 <= i < |rows| => NanMax(rows[i]));
    if rows != [] {
      NanMaxFlatten(rows[1..]);
      assert maxima[1..] == seq(|rows[1..]|, i requires 0 <= i < |rows[1..]| => NanMax(rows[1..][i]));
      NanMaxAppend(rows[0], Flatten(rows[1..]));
    }
  }

  /** nanmin of the flattened rows is the nanmin of the per-row nanmins. */
  lemma {:induction false} NanMinFlatten(rows: seq<seq<Cell>>)
    ensures NanMin(Flatten(rows)) == NanMin(seq(|rows|, i requires 0 <= i < |rows| => NanMin(rows[i])))
  {
    var minima := seq(|rows|, i requires 0 <= i < |rows| => NanMin(rows[i]));
    if rows != [] {
      NanMinFlatten(rows[1..]);
      assert minima[1..] == seq(|rows[1..]|, i requires 0 <= i < |rows[1..]| => NanMin(rows[1..][i]));
      NanMinAppend(rows[0], Flatten(rows[1..]));
    }
  }

  const Threshold: nat := 500

  /**
   * The present cells strictly above 500, in order and with repeats (the
   * boolean mask `data > 500`; a NaN never passes it).
   */
  function OverThreshold(cells: seq<Cell>): (vs: seq<nat>)
    ensures forall v :: v in vs <==> Threshold < v && Some(v) in cells
    ensures forall v :: multiset(vs)[v] == if Threshold < v then multiset(cells)[Some(v)] else 0
  {
    if cells == [] then []
    else
      assert cells == [cells[0]] + cells[1..];
      assert multiset(cells) == multiset{cells[0]} + multiset(cells[1..]);
      assert forall c :: c in cells <==> c == cells[0] || c in cells[1..];
      var rest := OverThreshold(cells[1..]);
      match cells[0]
      case Some(v) => if Threshold < v then [v] + rest else rest
      case None => rest
  }

  predicate Ascending(s: seq<nat>)
  {
    forall i, j :: 0 <= i <= j < |s| ==> s[i] <= s[j]
  }

  function InsertAscending(x: nat, s: seq<nat>): (r: seq<nat>)
    requires Ascending(s)
    ensures Ascending(r)
    ensures multiset(r) == multiset(s) + multiset{x}
  {
    if s == [] || x <= s[0] then [x] + s
    else
      var rest := InsertAscending(x, s[1..]);
      assert s == [s[0]] + s[1..];
      HeadBelowRest(x, s, rest);
      [s[0]] + rest
  }

  lemma HeadBelowRest(x: nat, s: seq<nat>, rest: seq<nat>)
    requires Ascending(s) && s != [] && s[0] < x
    requires Ascending(rest)
    requires multiset(rest) == multiset(s[1..]) + multiset{x}
    ensures Ascending([s[0]] + rest)
  {
    forall i | 0 <= i < |rest| ensures s[0] <= rest[i] {
      assert rest[i] in multiset(rest);
      if rest[i] != x {
        assert rest[i] in s[1..];
      }
    }
  }

  /** The values in ascending order. */
  function Sort(xs: seq<nat>): (r: seq<nat>)
    ensures Ascending(r)
    ensures multiset(r) == multiset(xs)
    ensures |r| == |xs|
  {
    if xs == [] then []
    else
      assert xs == [xs[0]] + xs[1..];
      var r := InsertAscending(xs[0], Sort(xs[1..]));
      assert |multiset(r)| == |multiset(xs)|;
      r
  }

  /** Two ascending sequences holding the same values are the same sequence. */
  lemma {:induction false} AscendingPermutationsEqual(a: seq<nat>, b: seq<nat>)
    requires Ascending(a) && Ascending(b)
    requires multiset(a) == multiset(b)
    ensures a == b
  {
    assert |a| == |multiset(a)| == |multiset(b)| == |b|;
    if a != [] {
      SameHead(a, b);
      SameTail(a, b);
      AscendingPermutationsEqual(a[1..], b[1..]);
    }
  }

  lemma SameHead(a: seq<nat>, b: seq<nat>)
    requires Ascending(a) && Ascending(b) && a != [] && b != []
    requires multiset(a) == multiset(b)
    ensures a[0] == b[0]
  {
    assert a[0] in multiset(b);
    assert b[0] in multiset(a);
  }

  lemma SameTail(a: seq<nat>, b: seq<nat>)
    requires a != [] && b != [] && a[0] == b[0]
    requires multiset(a) == multiset(b)
    ensures multiset(a[1..]) == multiset(b[1..])
  {
    assert a == [a[0]] + a[1..];
    assert b == [b[0]] + b[1..];
    assert multiset(a[1..]) == multiset(a) - multiset{a[0]};
    assert multiset(b[1..]) == multiset(b) - multiset{a[0]};
  }

  /**
   * The median, truncated: the middle of the sorted values, or the floor
   * of the mean of the two middle values when there is an even number.
   */
  function Median(xs: seq<nat>): (m: nat)
    requires |xs| > 0
    ensures m == (Sort(xs)[(|xs| - 1) / 2] + Sort(xs)[|xs| / 2]) / 2
    ensures exists lo :: lo in xs && lo <= m
    ensures exists hi :: hi in xs && m <= hi
  {
    var s := Sort(xs);
    var n := |s|;
    var lower := s[(n - 1) / 2];
    var upper := s[n / 2];
    assert lower <= upper;
    assert lower in multiset(xs) && upper in multiset(xs);
    assert lower in xs && upper in xs;
    (lower + upper) / 2
  }

  /** How many of `xs`, counted with repeats, satisfy `p`. */
  function Count(xs: seq<nat>, p: nat -> bool): (k: nat)
    ensures k <= |xs|
  {
    if xs == [] then 0 else (if p(xs[0]) then 1 else 0) + Count(xs[1..], p)
  }

  lemma {:induction false} CountAppend(a: seq<nat>, b: seq<nat>, p: nat -> bool)
    ensures Count(a + b, p) == Count(a, p) + Count(b, p)
  {
    if a == [] {
      assert a + b == b;
    } else {
      assert (a + b)[1..] == a[1..] + b;
      CountAppend(a[1..], b, p);
    }
  }

  lemma {:induction false} CountAllHold(a: seq<nat>, p: nat -> bool)
    requires forall i :: 0 <= i < |a| ==> p(a[i])
    ensures Count(a, p) == |a|
  {
    if a != [] {
      CountAllHold(a[1..], p);
    }
  }

  lemma {:induction false} CountInsert(x: nat, s: seq<nat>, p: nat -> bool)
    requires Ascending(s)
    ensures Count(InsertAscending(x, s), p) == Count(s, p) + if p(x) then 1 else 0
  {
    if s == [] || x <= s[0] {
      assert ([x] + s)[1..] == s;
    } else {
      CountInsert(x, s[1..], p);
      assert ([s[0]] + InsertAscending(x, s[1..]))[1..] == InsertAscending(x, s[1..]);
    }
  }

  /** Sorting keeps how many values satisfy any test. */
  lemma {:induction false} CountSort(xs: seq<nat>, p: nat -> bool)
    ensures Count(Sort(xs), p) == Count(xs, p)
  {
    if xs != [] {
      CountSort(xs[1..], p);
      CountInsert(xs[0], Sort(xs[1..]), p);
    }
  }

  function AtMost(v: nat): nat -> bool
  {
    x => x <= v
  }

  function AtLeast(v: nat): nat -> bool
  {
    x => v <= x
  }

  /** In ascending order, the first `k` values are at most the `k`-th. */
  lemma SortedPrefixAtMost(s: seq<nat>, k: nat, v: nat)
    requires Ascending(s) && 0 < k <= |s| && s[k - 1] <= v
    ensures k <= Count(s, AtMost(v))
  {
    assert s == s[..k] + s[k..];
    CountAppend(s[..k], s[k..], AtMost(v));
    CountAllHold(s[..k], AtMost(v));
  }

  /** In ascending order, the values from position `j` on are at least the `j`-th. */
  lemma SortedSuffixAtLeast(s: seq<nat>, j: nat, v: nat)
    requires Ascending(s) && j < |s| && v <= s[j]
    ensures |s| - j <= Count(s, AtLeast(v))
  {
    assert s == s[..j] + s[j..];
    CountAppend(s[..j], s[j..], AtLeast(v));
    CountAllHold(s[j..], AtLeast(v));
  }

  /**
   * The median splits the values in half: at least half of them, counted
   * with repeats, are at most the median, and at least half are at least
   * the median.
   */
  lemma MedianRanks(xs: seq<nat>)
    requires |xs| > 0
    ensures (|xs| + 1) / 2 <= Count(xs, AtMost(Median(xs)))
    ensures (|xs| + 1) / 2 <= Count(xs, AtLeast(Median(xs)))
  {
    var s := Sort(xs);
    var n := |s|;
    var m := Median(xs);
    CountSort(xs, AtMost(m));
    CountSort(xs, AtLeast(m));
    SortedPrefixAtMost(s, (n - 1) / 2 + 1, m);
    SortedSuffixAtLeast(s, n / 2, m);
  }

  /** The median does not depend on the order in which the values were collected. */
  lemma MedianIgnoresOrder(xs: seq<nat>, ys: seq<nat>)
    requires |xs| > 0
    requires multiset(xs) == multiset(ys)
    ensures |ys| > 0 && Median(xs) == Median(ys)
  {
    assert |ys| == |multiset(ys)| == |multiset(xs)| == |xs|;
    AscendingPermutationsEqual(Sort(xs), Sort(ys));
  }
}
