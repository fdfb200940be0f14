/** Sand is conserved modulo the sink: one step of the transition keeps the
    interior total, except for the grains that cells next to the frame push
    into it.

    Cell `(i, j)` keeps `c % 4` and hands `c / 4` grains to each of its four
    neighbours. Grains handed to an interior neighbour stay in the interior;
    grains handed to a sink cell leave it, because the sink is never read
    back (it is zero and `0 / 4 == 0`). The lost grains are the `c / 4` of
    every cell of the first and last interior row and of the first and last
    interior column (a corner cell loses them twice).
 */
module Conservation {
  import opened JavaSemantics
  import opened Matrix
  import opened ParallelGrid
  import opened GridUpdate

  /** `f(lo) + ... + f(hi - 1)`, or 0 for an empty range. */
  function Sum(f: int -> int, lo: int, hi: int): int
    decreases hi - lo
  {
    if hi <= lo then 0 else Sum(f, lo, hi - 1) + f(hi - 1)
  }

  /** Sums of pointwise-equal functions are equal. */
  lemma {:induction false} SumExt(f: int -> int, g: int -> int, lo: int, hi: int)
    requires forall k :: lo <= k < hi ==> f(k) == g(k)
    ensures Sum(f, lo, hi) == Sum(g, lo, hi)
    decreases hi - lo
  {
    if lo < hi {
      SumExt(f, g, lo, hi - 1);
    }
  }

  /** A sum of non-negative terms is non-negative. */
  lemma {:induction false} SumNonNegative(f: int -> int, lo: int, hi: int)
    requires forall k :: lo <= k < hi ==> f(k) >= 0
    ensures Sum(f, lo, hi) >= 0
    decreases hi - lo
  {
    if lo < hi {
      SumNonNegative(f, lo, hi - 1);
    }
  }

  /** The grains cell `(i, j)` hands to each neighbour. */
  function Grains(m: Mat, i: int, j: int): int {
    Div(At(m, i, j), 4)
  }

  /** Total height of interior columns `1..n-1` of row `i`. */
  function RowTotal(m: Mat, i: int, n: int): int {
    Sum(j => At(m, i, j), 1, n)
  }

  /** Grains per neighbour summed over interior columns `1..n-1` of row `i`. */
  function RowGrains(m: Mat, i: int, n: int): int {
    Sum(j => Grains(m, i, j), 1, n)
  }

  /** Next heights summed over interior columns `1..n-1` of row `i`. */
  function RowStep(m: Mat, i: int, n: int): int {
    Sum(j => Topple(m, i, j), 1, n)
  }

  /** Grains row `i` pushes out through its first and last interior column. */
  function SideGrains(m: Mat, i: int, cols: int): int {
    Grains(m, i, 1) + Grains(m, i, cols - 2)
  }

  /** Total height of the interior of a `rows` by `cols` lattice. */
  function InteriorSum(m: Mat, rows: int, cols: int): int {
    Sum(i => RowTotal(m, i, cols - 1), 1, rows - 1)
  }

  /** The grains one step pushes from the interior into the sink frame: the
      first and last interior rows through the top and bottom, and every
      interior row through its first and last interior column. */
  function SinkLoss(m: Mat, rows: int, cols: int): int {
    RowGrains(m, 1, cols - 1) + RowGrains(m, rows - 2, cols - 1)
    + Sum(i => SideGrains(m, i, cols), 1, rows - 1)
  }

  /** Along one row, with no assumption about the frame: the step's row sum
      plus what the row keeps back or loses sideways equals its old height
      plus what its upper and lower neighbours hand it. */
  lemma {:induction false} RowBalance(m: Mat, i: int, n: int)
    requires n >= 1
    ensures RowStep(m, i, n) + 2 * RowGrains(m, i, n) + Grains(m, i, 1) + Grains(m, i, n - 1)
         == RowTotal(m, i, n) + RowGrains(m, i - 1, n) + RowGrains(m, i + 1, n)
            + Grains(m, i, n) + Grains(m, i, 0)
    decreases n
  {
    if n > 1 {
      RowBalance(m, i, n - 1);
      var c := At(m, i, n - 1);
      assert c == 4 * Div(c, 4) + Rem(c, 4);
    }
  }

  /** Over the first rows `1..n-1` of the interior, assuming zero sink
      columns: the interior rows' step sums plus their sideways losses plus
      the rows `1` and `n-1` grain sums balance the old totals. */
  lemma {:induction false} PrefixBalance(m: Mat, rows: int, cols: int, n: int)
    requires IsRect(m, rows, cols) && BorderZero(m, rows, cols)
    requires 1 <= n <= rows - 1 && cols >= 2
    ensures Sum(i => RowStep(m, i, cols - 1), 1, n) + Sum(i => SideGrains(m, i, cols), 1, n)
            + RowGrains(m, n - 1, cols - 1) + RowGrains(m, 1, cols - 1)
         == Sum(i => RowTotal(m, i, cols - 1), 1, n)
            + RowGrains(m, n, cols - 1) + RowGrains(m, 0, cols - 1)
    decreases n
  {
    if n > 1 {
      PrefixBalance(m, rows, cols, n - 1);
      var i := n - 1;
      RowBalance(m, i, cols - 1);
      assert OnBorder(rows, cols, i, 0) && OnBorder(rows, cols, i, cols - 1);
    }
  }

  /** The grain sum of a sink row is zero. */
  lemma SinkRowHasNoGrains(m: Mat, rows: int, cols: int, i: int)
    requires IsRect(m, rows, cols) && BorderZero(m, rows, cols)
    requires !InteriorRow(rows, i)
    ensures RowGrains(m, i, cols - 1) == 0
  {
    forall j | 1 <= j < cols - 1
      ensures Grains(m, i, j) == 0
    {
      if 0 <= i < rows {
        assert OnBorder(rows, cols, i, j);
      }
    }
    SumExt(j => Grains(m, i, j), _ => 0, 1, cols - 1);
    ZeroSum(1, cols - 1);
  }

  /** The constant-zero function sums to zero. */
  lemma {:induction false} ZeroSum(lo: int, hi: int)
    ensures Sum(_ => 0, lo, hi) == 0
    decreases hi - lo
  {
    if lo < hi {
      ZeroSum(lo, hi - 1);
    }
  }

  /** One step over a lattice with a zero sink frame: the interior total of
      the next heights plus the grains lost to the sink is the old interior
      total. */
  lemma StepBalance(m: Mat, rows: int, cols: int)
    requires IsRect(m, rows, cols) && BorderZero(m, rows, cols)
    ensures Sum(i => RowStep(m, i, cols - 1), 1, rows - 1) + SinkLoss(m, rows, cols)
         == InteriorSum(m, rows, cols)
  {
    if rows >= 2 && cols >= 2 {
      PrefixBalance(m, rows, cols, rows - 1);
      SinkRowHasNoGrains(m, rows, cols, rows - 1);
      SinkRowHasNoGrains(m, rows, cols, 0);
    } else if rows < 2 {
      SinkRowHasNoGrains(m, rows, cols, 1);
      SinkRowHasNoGrains(m, rows, cols, rows - 2);
    } else {
      forall i | InteriorRow(rows, i)
        ensures RowStep(m, i, cols - 1) == 0 && RowTotal(m, i, cols - 1) == 0
             && SideGrains(m, i, cols) == 0
      {
      }
      SumExt(i => RowStep(m, i, cols - 1), _ => 0, 1, rows - 1);
      SumExt(i => RowTotal(m, i, cols - 1), _ => 0, 1, rows - 1);
      SumExt(i => SideGrains(m, i, cols), _ => 0, 1, rows - 1);
      ZeroSum(1, rows - 1);
    }
  }

  /** With non-negative heights nothing flows back out of the sink. */
  lemma SinkLossNonNegative(m: Mat, rows: int, cols: int)
    requires IsRect(m, rows, cols)
    requires forall i, j :: 0 <= i < rows && 0 <= j < cols ==> m[i][j] >= 0
    ensures SinkLoss(m, rows, cols) >= 0
  {
    forall i, j
      ensures Grains(m, i, j) >= 0
    {
    }
    SumNonNegative(j => Grains(m, 1, j), 1, cols - 1);
    SumNonNegative(j => Grains(m, rows - 2, j), 1, cols - 1);
    SumNonNegative(i => SideGrains(m, i, cols), 1, rows - 1);
  }

  /** A buffer holding the next heights of `m` in its interior: its interior
      total plus the grains lost to the sink is the old interior total. */
  lemma StepConservesSand(a: Mat, m: Mat, rows: int, cols: int)
    requires IsRect(a, rows, cols) && IsRect(m, rows, cols) && BorderZero(m, rows, cols)
    requires forall i, j :: InInterior(rows, cols, i, j) ==> a[i][j] == Topple(m, i, j)
    ensures InteriorSum(a, rows, cols) + SinkLoss(m, rows, cols) == InteriorSum(m, rows, cols)
  {
    StepBalance(m, rows, cols);
    InteriorMatchesStep(a, m, rows, cols);
  }

  /** `update` conserves sand modulo the sink: on a grid whose frame is zero,
      the interior total of the update buffer, and of the committed buffer
      afterwards, plus the grains lost to the sink is the old interior
      total. */
  lemma UpdateConservesSand(p: Policy, g: Grid)
    requires Valid(g) && BorderZero(g.cells, g.rows, g.columns)
    requires Terminates(p, g.columns, 1, g.rows - 1)
    ensures InteriorSum(Update(p, g).0.update, g.rows, g.columns) + SinkLoss(g.cells, g.rows, g.columns)
            == InteriorSum(g.cells, g.rows, g.columns)
    ensures InteriorSum(Update(p, g).0.cells, g.rows, g.columns) + SinkLoss(g.cells, g.rows, g.columns)
            == InteriorSum(g.cells, g.rows, g.columns)
  {
    var (after, changed) := Update(p, g);
    StepConservesSand(after.update, g.cells, g.rows, g.columns);
    if changed {
      StepConservesSand(after.cells, g.cells, g.rows, g.columns);
    } else {
      StepConservesSand(g.cells, g.cells, g.rows, g.columns);
    }
  }

  /** With non-negative heights and a zero frame, `update` never increases
      the interior total. */
  lemma UpdateNeverAddsSand(p: Policy, g: Grid)
    requires Valid(g) && BorderZero(g.cells, g.rows, g.columns)
    requires Terminates(p, g.columns, 1, g.rows - 1)
    requires forall i, j :: 0 <= i < g.rows && 0 <= j < g.columns ==> g.cells[i][j] >= 0
    ensures InteriorSum(Update(p, g).0.cells, g.rows, g.columns) <= InteriorSum(g.cells, g.rows, g.columns)
  {
    UpdateConservesSand(p, g);
    SinkLossNonNegative(g.cells, g.rows, g.columns);
  }

  /** A buffer whose interior holds the next heights of `m` has the step's
      interior total. */
  lemma InteriorMatchesStep(a: Mat, m: Mat, rows: int, cols: int)
    requires IsRect(a, rows, cols) && IsRect(m, rows, cols)
    requires forall i, j :: InInterior(rows, cols, i, j) ==> a[i][j] == Topple(m, i, j)
    ensures InteriorSum(a, rows, cols) == Sum(i => RowStep(m, i, cols - 1), 1, rows - 1)
  {
    forall i {:trigger RowTotal(a, i, cols - 1)} | 1 <= i < rows - 1
      ensures RowTotal(a, i, cols - 1) == RowStep(m, i, cols - 1)
    {
      forall j | InteriorCol(cols, j)
        ensures At(a, i, j) == Topple(m, i, j)
      {
        assert InInterior(rows, cols, i, j);
      }
      SumExt(j => At(a, i, j), j => Topple(m, i, j), 1, cols - 1);
    }
    SumExt(i => RowTotal(a, i, cols - 1), i => RowStep(m, i, cols - 1), 1, rows - 1);
  }
}
