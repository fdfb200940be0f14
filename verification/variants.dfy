/** The parallel package's cutoff: `CUTOFF = (rows*columns) / processors`
    compared against the cell count `(end-start)*columns` of a range. */
module ParallelSandpile {
  import opened JavaSemantics
  import opened ParallelGrid
  import opened GridUpdate
  import opened Products

  /** The cutoff policy of `ParallelGridUpdate` for `processors` available
      processors. */
  function SourcePolicy(g: Grid, processors: int): (p: Policy)
    requires Valid(g) && processors >= 1
    ensures p.CellCount? && p.cutoff * processors <= g.rows * g.columns < (p.cutoff + 1) * processors
  {
    MulMonotone(0, g.rows, g.columns);
    CellCount(Div(g.rows * g.columns, processors))
  }

  /** `update()` terminates exactly when the columns are empty, the interior
      has no row, or there are at least as many padded rows as processors. */
  lemma TerminationCondition(g: Grid, processors: int)
    requires Valid(g) && processors >= 1
    ensures Terminates(SourcePolicy(g, processors), g.columns, 1, g.rows - 1)
            <==> g.columns == 0 || g.rows <= 2 || g.rows >= processors
  {
    var c, rows := g.columns, g.rows;
    var q := SourcePolicy(g, processors).cutoff;
    if c >= 1 && rows >= 3 {
      if rows >= processors {
        MulMonotone(processors, rows, c);
        if q <= c - 1 {
          MulMonotone(q, c - 1, processors);
        }
        assert OneRowIsLeaf(SourcePolicy(g, processors), c);
      } else {
        MulStrict(rows, processors, c);
        if q >= c {
          MulMonotone(c, q, processors);
        }
        MulMonotone(1, rows - 2, c);
        assert !IsLeaf(SourcePolicy(g, processors), c, 1, rows - 1);
      }
    } else if c >= 1 {
      MulMonotone(rows - 2, 0, c);
    }
  }

  /** As written, a grid with a non-empty interior and fewer padded rows than
      processors sends `compute()` into unbounded recursion: every depth of
      its task tree is reached. */
  lemma DivergesOnSmallGrid(g: Grid, processors: int, d: nat)
    requires Valid(g) && processors >= 1
    requires g.columns >= 1 && 3 <= g.rows < processors
    ensures ReachesDepth(SourcePolicy(g, processors), g.columns, 1, g.rows - 1, d)
  {
    TerminationCondition(g, processors);
    Diverges(SourcePolicy(g, processors), g.columns, 1, g.rows - 1, d);
  }

  /** The cutoff clamped to at least one row's worth of cells, so that a
      one-row range is always a leaf. It is the source's cutoff when there
      are no columns or at least as many padded rows as processors. */
  function ClampedPolicy(g: Grid, processors: int): (p: Policy)
    requires Valid(g) && processors >= 1
    ensures p.CellCount? && OneRowIsLeaf(p, g.columns)
    ensures forall start, end :: Terminates(p, g.columns, start, end)
    ensures g.columns == 0 || g.rows >= processors ==> p == SourcePolicy(g, processors)
  {
    var q := SourcePolicy(g, processors).cutoff;
    CutoffCoversRow(g, processors);
    CellCount(if q < g.columns then g.columns else q)
  }

  /** Wherever the source's `update()` terminates, the clamped cutoff gives
      the same updated grid and change flag. */
  lemma ClampedAgreesWithSource(g: Grid, processors: int)
    requires Valid(g) && processors >= 1
    ensures Terminates(SourcePolicy(g, processors), g.columns, 1, g.rows - 1)
            ==> Update(ClampedPolicy(g, processors), g) == Update(SourcePolicy(g, processors), g)
  {
    if Terminates(SourcePolicy(g, processors), g.columns, 1, g.rows - 1) {
      UpdateIndependentOfPolicy(ClampedPolicy(g, processors), SourcePolicy(g, processors), g);
    }
  }

  /** With at least as many padded rows as processors, the cutoff admits a
      whole row of cells. */
  lemma CutoffCoversRow(g: Grid, processors: int)
    requires Valid(g) && processors >= 1
    ensures g.rows >= processors ==> SourcePolicy(g, processors).cutoff >= g.columns
  {
    var q := SourcePolicy(g, processors).cutoff;
    if g.rows >= processors {
      MulMonotone(processors, g.rows, g.columns);
      if q <= g.columns - 1 {
        MulMonotone(q, g.columns - 1, processors);
      }
    }
  }
}

/** The serial package's cutoff: `CUTOFF = (rows*columns) / processors`
    compared against the row count `endRow-startRow` of a range; also its
    constructors. */
module SerialSandpile {
  import opened JavaSemantics
  import opened Matrix
  import opened ParallelGrid
  import opened GridUpdate
  import opened Products
  import ParallelSandpile

  /** The cutoff policy of `ParallelGridUpdateTask` for `processors`
      available processors. */
  function SourcePolicy(g: Grid, processors: int): (p: Policy)
    requires Valid(g) && processors >= 1
    ensures p.RowCount? && p.cutoff * processors <= g.rows * g.columns < (p.cutoff + 1) * processors
  {
    MulMonotone(0, g.rows, g.columns);
    RowCount(Div(g.rows * g.columns, processors))
  }

  /** `update()` terminates exactly when the interior has no row or the
      padded lattice has at least as many cells as there are processors. */
  lemma TerminationCondition(g: Grid, processors: int)
    requires Valid(g) && processors >= 1
    ensures Terminates(SourcePolicy(g, processors), g.columns, 1, g.rows - 1)
            <==> g.rows <= 2 || g.rows * g.columns >= processors
  {
    var q := SourcePolicy(g, processors).cutoff;
    if q >= 1 {
      MulMonotone(1, q, processors);
    }
  }

  /** As written, a grid with a non-empty interior and fewer padded cells
      than processors sends `compute()` into unbounded recursion. */
  lemma DivergesOnSmallGrid(g: Grid, processors: int, d: nat)
    requires Valid(g) && processors >= 1
    requires g.rows >= 3 && g.rows * g.columns < processors
    ensures ReachesDepth(SourcePolicy(g, processors), g.columns, 1, g.rows - 1, d)
  {
    TerminationCondition(g, processors);
    Diverges(SourcePolicy(g, processors), g.columns, 1, g.rows - 1, d);
  }

  /** The cutoff clamped to at least one row, so that a one-row range is
      always a leaf. It is the source's cutoff when the padded lattice has at
      least as many cells as processors. */
  function ClampedPolicy(g: Grid, processors: int): (p: Policy)
    requires Valid(g) && processors >= 1
    ensures p.RowCount? && OneRowIsLeaf(p, g.columns)
    ensures forall start, end :: Terminates(p, g.columns, start, end)
    ensures g.rows * g.columns >= processors ==> p == SourcePolicy(g, processors)
  {
    var q := SourcePolicy(g, processors).cutoff;
    RowCount(if q < 1 then 1 else q)
  }

  /** Wherever the source's `update()` terminates, the clamped cutoff gives
      the same updated grid and change flag. */
  lemma ClampedAgreesWithSource(g: Grid, processors: int)
    requires Valid(g) && processors >= 1
    ensures Terminates(SourcePolicy(g, processors), g.columns, 1, g.rows - 1)
            ==> Update(ClampedPolicy(g, processors), g) == Update(SourcePolicy(g, processors), g)
  {
    if Terminates(SourcePolicy(g, processors), g.columns, 1, g.rows - 1) {
      UpdateIndependentOfPolicy(ClampedPolicy(g, processors), SourcePolicy(g, processors), g);
    }
  }

  /** The two packages' `update()` agree whenever both terminate: the same
      change flag and the same buffers, since both equal one sequential
      sweep. */
  lemma VariantsAgree(g: Grid, processors: int)
    requires Valid(g) && processors >= 1
    requires Terminates(SourcePolicy(g, processors), g.columns, 1, g.rows - 1)
    requires Terminates(ParallelSandpile.SourcePolicy(g, processors), g.columns, 1, g.rows - 1)
    ensures Update(SourcePolicy(g, processors), g) == Update(ParallelSandpile.SourcePolicy(g, processors), g)
  {
    UpdateIndependentOfPolicy(SourcePolicy(g, processors), ParallelSandpile.SourcePolicy(g, processors), g);
  }

  /** `new ParallelGrid(w, h)` of the serial package as written: Java
      allocates both buffers zero-filled, and the loop then writes 0 into
      every cell of the committed buffer only. */
  function CreateAsWritten(w: int, h: int): (r: Result<Grid>)
    ensures r.Err? <==> w + 2 < 0 || h + 2 < 0
    ensures r.Err? ==> r.error == NegativeArraySize
    ensures r.Ok? ==> r.value.rows == w + 2 && r.value.columns == h + 2
  {
    if w + 2 < 0 || h + 2 < 0 then Err(NegativeArraySize)
    else
      var rows, columns := w + 2, h + 2;
      var zeroed := Fill(rows, columns, 0);
      Ok(Grid(rows, columns, ZeroEvery(zeroed), zeroed))
  }

  /** The initialisation loop: every cell of `m` overwritten with 0. */
  function ZeroEvery(m: Mat): (z: Mat)
    ensures |z| == |m| && forall i :: 0 <= i < |m| ==> |z[i]| == |m[i]|
  {
    seq(|m|, i requires 0 <= i < |m| => seq(|m[i]|, _ => 0))
  }

  /** Because Java zero-fills a fresh array, leaving the update buffer
      uninitialised makes no difference: the serial constructor builds the
      same grid as the parallel one, and fails on the same inputs. */
  lemma CreateAsWrittenIsCreate(w: int, h: int)
    ensures CreateAsWritten(w, h) == Create(w, h)
  {
    if w + 2 >= 0 && h + 2 >= 0 {
      var m := Fill(w + 2, h + 2, 0);
      assert ZeroEvery(m) == m;
    }
  }

  /** The serial loader reads `src[i-1][j-1]` for `i` in `1..rows-1` and `j`
      in `1..columns-1`, i.e. one row and one column past `src`. */
  predicate ReadsInBounds(src: Mat, i: int, j: int) {
    0 <= i < |src| && 0 <= j < |src[i]|
  }

  /** `new ParallelGrid(int[][] src)` of the serial package as written: its
      loops run to `rows` and `columns` instead of `rows-1` and `columns-1`,
      so it reads `src[w][...]` and `src[...][h]`, and would write the sink
      frame. It completes only if all of those reads are in bounds. */
  function FromArrayAsWritten(src: Mat): (r: Result<Grid>)
    ensures r.Ok? ==> |src| > 0
    ensures r.Ok? ==> forall i, j :: 0 <= i <= |src| && 0 <= j <= |src[0]| ==> ReadsInBounds(src, i, j)
    ensures r.Err? ==> r.error == IndexOutOfBounds
  {
    if |src| == 0 then Err(IndexOutOfBounds)
    else if forall i, j :: 0 <= i <= |src| && 0 <= j <= |src[0]| ==> ReadsInBounds(src, i, j) then
      var g := Create(|src|, |src[0]|).value;
      Ok(g.(cells := seq(g.rows, i => seq(g.columns, j =>
                       if 1 <= i && 1 <= j then At(src, i - 1, j - 1) else 0))))
    else Err(IndexOutOfBounds)
  }

  /** The serial loader fails on every input: row `src[w]` does not exist. */
  lemma FromArrayAlwaysFails(src: Mat)
    ensures FromArrayAsWritten(src).Err?
  {
    if |src| > 0 {
      assert !ReadsInBounds(src, |src|, 0);
    }
  }
}
