/** The transition engine: the per-cell sandpile rule, the leaf sweep over a
    row range, the recursive bisection of the row range under a sequential
    cutoff, and `update`, which runs it over the whole interior and commits.

    The two packages differ only in the cutoff test, so the engine takes it
    as a `Policy`. A fork/join split is modelled as sequential evaluation of
    the two halves: the `bottom` half (computed in the splitting call) first,
    then the forked `top` half writing into the buffer `bottom` produced.
 */
module GridUpdate {
  import opened JavaSemantics
  import opened Matrix
  import opened ParallelGrid
  import opened Products

  /** The next height of cell `(i, j)`: what it keeps after toppling
      (`cur[i][j] % 4`) plus one grain per full group of four held by each
      orthogonal neighbour (`cur[n] / 4`), with Java's operators. */
  function Topple(cur: Mat, i: int, j: int): int {
    Rem(At(cur, i, j), 4)
    + Div(At(cur, i - 1, j), 4) + Div(At(cur, i + 1, j), 4)
    + Div(At(cur, i, j - 1), 4) + Div(At(cur, i, j + 1), 4)
  }

  /** A read buffer and a write buffer of the same `|cur|` by `cols` shape. */
  ghost predicate Buffers(cur: Mat, next: Mat, cols: int) {
    0 <= cols && IsRect(cur, |cur|, cols) && IsRect(next, |cur|, cols)
  }

  /** A row range that only touches interior rows when it is non-empty;
      Java reads rows `i-1` and `i+1` of every row `i` in range. */
  predicate RowRange(rows: int, start: int, end: int) {
    1 <= start && end <= rows - 1
  }

  /** The inner loop of a leaf over row `i`: columns `1..hi-1` of `row` are
      overwritten with their next heights, in increasing column order. The
      flag says whether some written value differs from the read buffer. */
  function SweepRow(cur: Mat, row: seq<int>, i: int, hi: int): (r: (seq<int>, bool))
    requires 0 <= i < |cur| && |row| == |cur[i]| && hi <= |row|
    ensures |r.0| == |row|
    ensures forall j {:trigger r.0[j]} :: 0 <= j < |row| ==>
              r.0[j] == if 1 <= j < hi then Topple(cur, i, j) else row[j]
    ensures r.1 <==> exists j {:trigger Topple(cur, i, j)} :: 1 <= j < hi && Topple(cur, i, j) != cur[i][j]
    decreases hi
  {
    if hi <= 1 then (row, false)
    else
      var (prefix, changed) := SweepRow(cur, row, i, hi - 1);
      var v := Topple(cur, i, hi - 1);
      var r := (prefix[hi - 1 := v], changed || cur[i][hi - 1] != v);
      assert r.1 ==> exists j {:trigger Topple(cur, i, j)} :: 1 <= j < hi && Topple(cur, i, j) != cur[i][j] by {
        if !changed && r.1 {
          assert Topple(cur, i, hi - 1) != cur[i][hi - 1];
        }
      }
      r
  }

  /** A leaf task on rows `[start, end)`: every interior column of every row in
      range receives its next height; no other cell of `next` is written and
      `cur` is only read. The flag says whether some written cell differs
      from `cur`. An empty or inverted range writes nothing. */
  function Leaf(cur: Mat, next: Mat, cols: int, start: int, end: int): (r: (Mat, bool))
    requires Buffers(cur, next, cols) && RowRange(|cur|, start, end)
    ensures IsRect(r.0, |cur|, cols)
    ensures forall i, j {:trigger r.0[i][j]} :: 0 <= i < |cur| && 0 <= j < cols ==>
              r.0[i][j] == if start <= i < end && 1 <= j < cols - 1 then Topple(cur, i, j) else next[i][j]
    ensures r.1 <==> exists i, j {:trigger Topple(cur, i, j)} :: start <= i < end && 1 <= j < cols - 1 && Topple(cur, i, j) != cur[i][j]
    decreases end - start
  {
    if end <= start then (next, false)
    else
      var (written, changed) := Leaf(cur, next, cols, start, end - 1);
      var (row, rowChanged) := SweepRow(cur, written[end - 1], end - 1, cols - 1);
      (written[end - 1 := row], changed || rowChanged)
  }

  /** The sequential cutoff: `CellCount` is the parallel package's test
      `(end-start)*columns <= CUTOFF`, `RowCount` the serial package's
      `end-start <= CUTOFF`. */
  datatype Policy = CellCount(cutoff: nat) | RowCount(cutoff: nat)

  /** The range `[start, end)` is handled as a leaf. */
  predicate IsLeaf(p: Policy, cols: int, start: int, end: int) {
    match p
    case CellCount(c) => (end - start) * cols <= c
    case RowCount(c) => end - start <= c
  }

  /** A one-row range is a leaf. */
  predicate OneRowIsLeaf(p: Policy, cols: int) {
    IsLeaf(p, cols, 0, 1)
  }

  /** The recursion on `[start, end)` terminates: either the range is a leaf
      outright, or every one-row range is (see `TerminatesIff`). */
  predicate Terminates(p: Policy, cols: int, start: int, end: int) {
    IsLeaf(p, cols, start, end) || OneRowIsLeaf(p, cols)
  }

  /** The split row `(start + end) / 2`, with Java's division. */
  function Mid(start: int, end: int): int {
    Div(start + end, 2)
  }

  /** Ranges of at most one row are leaves when one-row ranges are. */
  lemma ShortRangeIsLeaf(p: Policy, cols: int, start: int, end: int)
    requires 0 <= cols && OneRowIsLeaf(p, cols) && end - start <= 1
    ensures IsLeaf(p, cols, start, end)
  {
    if p.CellCount? {
      MulMonotone(end - start, 1, cols);
    }
  }


  /** A non-leaf range of a terminating recursion has at least two rows, and
      the split point lies strictly inside it. */
  lemma SplitShrinks(p: Policy, cols: int, start: int, end: int)
    requires 0 <= cols && Terminates(p, cols, start, end) && !IsLeaf(p, cols, start, end)
    ensures end - start >= 2 && start < Mid(start, end) < end
  {
    if end - start <= 1 {
      ShortRangeIsLeaf(p, cols, start, end);
    }
  }

  /** `compute()` on `[start, end)`: a leaf, or the bisection at `Mid` with
      both halves computed and their flags OR-ed. Whatever the cutoff, every
      interior cell of every row in range receives its next height, nothing
      else is written, the flag says whether one of them changed, and the
      outcome is that of one sequential leaf sweep over the whole range. */
  function Compute(p: Policy, cur: Mat, next: Mat, cols: int, start: int, end: int): (r: (Mat, bool))
    requires Buffers(cur, next, cols) && RowRange(|cur|, start, end)
    requires Terminates(p, cols, start, end)
    ensures IsRect(r.0, |cur|, cols)
    ensures forall i, j {:trigger r.0[i][j]} :: 0 <= i < |cur| && 0 <= j < cols ==>
              r.0[i][j] == if start <= i < end && 1 <= j < cols - 1 then Topple(cur, i, j) else next[i][j]
    ensures r.1 <==> exists i, j {:trigger Topple(cur, i, j)} ::
              start <= i < end && 1 <= j < cols - 1 && Topple(cur, i, j) != cur[i][j]
    ensures r == Leaf(cur, next, cols, start, end)
    decreases end - start
  {
    if IsLeaf(p, cols, start, end) then Leaf(cur, next, cols, start, end)
    else
      SplitShrinks(p, cols, start, end);
      var mid := Mid(start, end);
      var (bottom, resultA) := Compute(p, cur, next, cols, mid, end);
      var (top, resultB) := Compute(p, cur, bottom, cols, start, mid);
      LeafSplit(cur, next, cols, start, mid, end);
      (top, resultA || resultB)
  }

  /** Sweeping `[mid, end)` and then `[start, mid)` into the buffer the first
      sweep produced is one sweep of `[start, end)`, and the flags OR. */
  lemma LeafSplit(cur: Mat, next: Mat, cols: int, start: int, mid: int, end: int)
    requires Buffers(cur, next, cols) && RowRange(|cur|, start, end) && start <= mid <= end
    ensures var (bottom, a) := Leaf(cur, next, cols, mid, end);
            var (top, b) := Leaf(cur, bottom, cols, start, mid);
            (top, a || b) == Leaf(cur, next, cols, start, end)
  {
    var (bottom, a) := Leaf(cur, next, cols, mid, end);
    var (top, b) := Leaf(cur, bottom, cols, start, mid);
    var (whole, c) := Leaf(cur, next, cols, start, end);
    Extensionality(top, whole, |cur|, cols);
  }

  /** The two halves of a split write disjoint rows, so the order in which the
      forked and the computed half finish does not matter. */
  lemma ForkOrderIrrelevant(cur: Mat, next: Mat, cols: int, start: int, mid: int, end: int)
    requires Buffers(cur, next, cols) && RowRange(|cur|, start, end) && start <= mid <= end
    ensures Leaf(cur, Leaf(cur, next, cols, mid, end).0, cols, start, mid).0
         == Leaf(cur, Leaf(cur, next, cols, start, mid).0, cols, mid, end).0
  {
    var bottomFirst := Leaf(cur, Leaf(cur, next, cols, mid, end).0, cols, start, mid).0;
    var topFirst := Leaf(cur, Leaf(cur, next, cols, start, mid).0, cols, mid, end).0;
    Extensionality(bottomFirst, topFirst, |cur|, cols);
  }

  /** `compute()` explores depth `d` of its recursion tree: at least `d`
      nested splits lie below the call on `[start, end)`. */
  predicate ReachesDepth(p: Policy, cols: int, start: int, end: int, d: nat)
    decreases d
  {
    d == 0 ||
    (!IsLeaf(p, cols, start, end) &&
     (ReachesDepth(p, cols, start, Mid(start, end), d - 1) ||
      ReachesDepth(p, cols, Mid(start, end), end, d - 1)))
  }

  /** A one-row range splits into an empty range and itself. */
  lemma OneRowSplitsIntoItself(start: int)
    requires 1 <= start
    ensures Mid(start, start + 1) == start
  {
  }

  /** When one-row ranges are not leaves, a non-empty range recurses forever:
      every depth of the recursion tree is reached. */
  lemma {:induction false} Diverges(p: Policy, cols: int, start: int, end: int, d: nat)
    requires 0 <= cols && !OneRowIsLeaf(p, cols) && 1 <= start < end
    ensures ReachesDepth(p, cols, start, end, d)
    decreases d
  {
    if d > 0 {
      if p.CellCount? {
        MulMonotone(1, end - start, cols);
      }
      var mid := Mid(start, end);
      assert start <= mid < end;
      Diverges(p, cols, mid, end, d - 1);
    }
  }

  /** When one-row ranges are leaves, the recursion tree on `[start, end)` is
      no deeper than the number of rows in the range. */
  lemma {:induction false} Bounded(p: Policy, cols: int, start: int, end: int, d: nat)
    requires 0 <= cols && OneRowIsLeaf(p, cols)
    requires d > end - start && d > 0
    ensures !ReachesDepth(p, cols, start, end, d)
    decreases end - start
  {
    if !IsLeaf(p, cols, start, end) {
      SplitShrinks(p, cols, start, end);
      var mid := Mid(start, end);
      Bounded(p, cols, start, mid, d - 1);
      Bounded(p, cols, mid, end, d - 1);
    }
  }

  /** The recursion on a range of interior rows terminates (its tree has a
      depth it never reaches) exactly when `Terminates` holds. */
  lemma TerminatesIff(p: Policy, cols: int, start: int, end: int)
    requires 0 <= cols && 1 <= start
    ensures Terminates(p, cols, start, end) <==> exists d: nat :: !ReachesDepth(p, cols, start, end, d)
  {
    if Terminates(p, cols, start, end) {
      if IsLeaf(p, cols, start, end) {
        var d: nat := 1;
        assert !ReachesDepth(p, cols, start, end, d);
      } else {
        var d: nat := if end - start < 0 then 1 else end - start + 1;
        Bounded(p, cols, start, end, d);
      }
    } else {
      forall d: nat
        ensures ReachesDepth(p, cols, start, end, d)
      {
        Diverges(p, cols, start, end, d);
      }
    }
  }

  /** The committed buffer is a fixed point of the transition: no interior
      cell would change. */
  ghost predicate IsFixedPoint(cur: Mat, rows: int, cols: int)
    requires IsRect(cur, rows, cols)
  {
    forall i, j {:trigger Topple(cur, i, j)} :: InInterior(rows, cols, i, j) ==> Topple(cur, i, j) == cur[i][j]
  }

  /** `update()`: compute the whole interior `[1, rows-1)` into the update
      buffer and commit it with `nextTimeStep` only if some cell changed. */
  function Update(p: Policy, g: Grid): (r: (Grid, bool))
    requires Valid(g) && Terminates(p, g.columns, 1, g.rows - 1)
    ensures Valid(r.0) && r.0.rows == g.rows && r.0.columns == g.columns
    ensures forall i, j {:trigger r.0.update[i][j]} {:trigger InInterior(g.rows, g.columns, i, j)} ::
              InInterior(g.rows, g.columns, i, j) ==> r.0.update[i][j] == Topple(g.cells, i, j)
    ensures SameBorder(r.0.update, g.update, g.rows, g.columns)
    ensures r.1 <==> !IsFixedPoint(g.cells, g.rows, g.columns)
    ensures r.1 ==> forall i, j {:trigger r.0.cells[i][j]} {:trigger InInterior(g.rows, g.columns, i, j)} ::
                      InInterior(g.rows, g.columns, i, j) ==> r.0.cells[i][j] == Topple(g.cells, i, j)
    ensures !r.1 ==> r.0.cells == g.cells
    ensures SameBorder(r.0.cells, g.cells, g.rows, g.columns)
  {
    var (next, change) := Compute(p, g.cells, g.update, g.columns, 1, g.rows - 1);
    var staged := g.(update := next);
    StagedSweep(g, next, change);
    if change then (NextTimeStep(staged), true) else (staged, false)
  }

  /** What the full-interior sweep leaves in the update buffer and reports. */
  lemma StagedSweep(g: Grid, next: Mat, change: bool)
    requires Valid(g) && (next, change) == Leaf(g.cells, g.update, g.columns, 1, g.rows - 1)
    ensures Valid(g.(update := next))
    ensures forall i, j {:trigger next[i][j]} {:trigger InInterior(g.rows, g.columns, i, j)} ::
              InInterior(g.rows, g.columns, i, j) ==> next[i][j] == Topple(g.cells, i, j)
    ensures SameBorder(next, g.update, g.rows, g.columns)
    ensures change <==> !IsFixedPoint(g.cells, g.rows, g.columns)
  {
    if change {
      var i, j :| 1 <= i < g.rows - 1 && 1 <= j < g.columns - 1 && Topple(g.cells, i, j) != g.cells[i][j];
      assert InInterior(g.rows, g.columns, i, j);
    }
  }

  /** Neither buffer's sink frame is ever written: a zero frame stays zero. */
  lemma UpdateKeepsBorderZero(p: Policy, g: Grid)
    requires Valid(g) && BordersZero(g) && Terminates(p, g.columns, 1, g.rows - 1)
    ensures BordersZero(Update(p, g).0)
  {
  }

  /** The result of `update` depends on neither the cutoff nor the policy:
      every terminating cutoff gives the sequential sweep's result. */
  lemma UpdateIndependentOfPolicy(p: Policy, q: Policy, g: Grid)
    requires Valid(g)
    requires Terminates(p, g.columns, 1, g.rows - 1) && Terminates(q, g.columns, 1, g.rows - 1)
    ensures Update(p, g) == Update(q, g)
  {
  }

  /** Once `update` reports no change the grid is stable: the next `update`,
      under any terminating policy, again reports no change and leaves the
      committed buffer as it was. */
  lemma StableStaysStable(p: Policy, q: Policy, g: Grid)
    requires Valid(g) && Terminates(p, g.columns, 1, g.rows - 1)
    requires !Update(p, g).1
    ensures Terminates(q, g.columns, 1, g.rows - 1) ==>
              !Update(q, Update(p, g).0).1 && Update(q, Update(p, g).0).0.cells == g.cells
  {
  }

  /** If every cell is non-negative before an update, it is afterwards. */
  lemma UpdateKeepsNonNegative(p: Policy, g: Grid)
    requires Valid(g) && Terminates(p, g.columns, 1, g.rows - 1)
    requires forall i, j :: 0 <= i < g.rows && 0 <= j < g.columns ==> g.cells[i][j] >= 0
    ensures forall i, j :: 0 <= i < g.rows && 0 <= j < g.columns ==> Update(p, g).0.cells[i][j] >= 0
  {
    var r := Update(p, g).0;
    forall i, j | 0 <= i < g.rows && 0 <= j < g.columns
      ensures r.cells[i][j] >= 0
    {
      if InInterior(g.rows, g.columns, i, j) && Update(p, g).1 {
        assert r.cells[i][j] == Topple(g.cells, i, j);
      } else if !InInterior(g.rows, g.columns, i, j) {
        assert OnBorder(g.rows, g.columns, i, j);
      }
    }
  }
}
