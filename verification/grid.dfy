/** The double-buffered sandpile lattice shared by both packages' `ParallelGrid`
    classes: construction, accessors, `setAll` and the `nextTimeStep` commit.

    The Java object keeps `rows` and `columns` as the PADDED sizes (the
    requested width and height plus a one-cell sink frame on every side),
    `parallelGrid` as the committed state and `updateGrid` as the buffer that
    receives the next state. Here the object is an immutable value and every
    mutator returns the updated value.
 */
module ParallelGrid {
  import opened JavaSemantics
  import opened Matrix

  /** `cells` is the Java field `parallelGrid`, `update` is `updateGrid`. */
  datatype Grid = Grid(rows: int, columns: int, cells: Mat, update: Mat)

  /** Both buffers are `rows` by `columns` arrays. */
  ghost predicate Valid(g: Grid) {
    && 0 <= g.rows && 0 <= g.columns
    && IsRect(g.cells, g.rows, g.columns)
    && IsRect(g.update, g.rows, g.columns)
  }

  /** The sink frame of both buffers holds 0. */
  ghost predicate BordersZero(g: Grid)
    requires Valid(g)
  {
    BorderZero(g.cells, g.rows, g.columns) && BorderZero(g.update, g.rows, g.columns)
  }

  /** `new ParallelGrid(w, h)`: a `(w+2)` by `(h+2)` lattice, both buffers
      zero. Java's array allocation throws when a dimension is negative. */
  function Create(w: int, h: int): (r: Result<Grid>)
    ensures r.Err? <==> w + 2 < 0 || h + 2 < 0
    ensures r.Err? ==> r.error == NegativeArraySize
    ensures r.Ok? ==> Valid(r.value) && r.value.rows == w + 2 && r.value.columns == h + 2
    ensures r.Ok? ==> GetRows(r.value) == w && GetColumns(r.value) == h
    ensures r.Ok? ==> forall i, j :: 0 <= i < w + 2 && 0 <= j < h + 2 ==>
                        r.value.cells[i][j] == 0 && r.value.update[i][j] == 0
  {
    if w + 2 < 0 || h + 2 < 0 then Err(NegativeArraySize)
    else
      var rows, columns := w + 2, h + 2;
      Ok(Grid(rows, columns, Fill(rows, columns, 0), Fill(rows, columns, 0)))
  }

  /** `new ParallelGrid(int[][] src)`: sized by `src.length` and
      `src[0].length`, with interior cell `(i, j)` copied from
      `src[i-1][j-1]`. Reading `src[0]` of an empty array, or a row shorter
      than the first one, throws. Longer rows are cut to the first row's
      length. */
  function FromArray(src: Mat): (r: Result<Grid>)
    ensures r.Err? <==> |src| == 0 || exists i :: 0 <= i < |src| && |src[i]| < |src[0]|
    ensures r.Err? ==> r.error == IndexOutOfBounds
    ensures r.Ok? ==> Valid(r.value) && BordersZero(r.value)
    ensures r.Ok? ==> GetRows(r.value) == |src| && GetColumns(r.value) == |src[0]|
    ensures r.Ok? ==> forall i, j :: InInterior(r.value.rows, r.value.columns, i, j) ==>
                        r.value.cells[i][j] == src[i - 1][j - 1]
    ensures r.Ok? ==> forall i, j :: 0 <= i < r.value.rows && 0 <= j < r.value.columns ==>
                        r.value.update[i][j] == 0
  {
    if |src| == 0 then Err(IndexOutOfBounds)
    else if exists i :: 0 <= i < |src| && |src[i]| < |src[0]| then Err(IndexOutOfBounds)
    else
      var g := Create(|src|, |src[0]|).value;
      var cells := seq(g.rows, i => seq(g.columns, j =>
                     if InInterior(g.rows, g.columns, i, j) then At(src, i - 1, j - 1)
                     else At(g.cells, i, j)));
      Ok(g.(cells := cells))
  }

  /** `getRows()`: the interior rows are exactly rows `1..GetRows(g)`. */
  function GetRows(g: Grid): (n: int)
    ensures forall i :: InteriorRow(g.rows, i) <==> 1 <= i <= n
  {
    g.rows - 2
  }

  /** `getColumns()`: the interior columns are exactly columns `1..GetColumns(g)`. */
  function GetColumns(g: Grid): (n: int)
    ensures forall j :: InteriorCol(g.columns, j) <==> 1 <= j <= n
  {
    g.columns - 2
  }

  /** `get(i, j)`: the committed cell, or the exception Java raises for an
      index outside the padded lattice. */
  function Get(g: Grid, i: int, j: int): (r: Result<int>)
    requires Valid(g)
    ensures r.Ok? <==> 0 <= i < g.rows && 0 <= j < g.columns
    ensures r.Ok? ==> r.value == g.cells[i][j]
    ensures r.Err? ==> r.error == IndexOutOfBounds
  {
    if 0 <= i < |g.cells| && 0 <= j < |g.cells[i]| then Ok(g.cells[i][j])
    else Err(IndexOutOfBounds)
  }

  /** `setAll(v)`: every interior cell of the committed buffer becomes `v`;
      the sink frame and the update buffer are untouched. */
  function SetAll(g: Grid, v: int): (r: Grid)
    requires Valid(g)
    ensures Valid(r) && r.rows == g.rows && r.columns == g.columns && r.update == g.update
    ensures forall i, j :: InInterior(g.rows, g.columns, i, j) ==> r.cells[i][j] == v
    ensures SameBorder(r.cells, g.cells, g.rows, g.columns)
  {
    g.(cells := seq(g.rows, i => seq(g.columns, j =>
                  if InInterior(g.rows, g.columns, i, j) then v else At(g.cells, i, j))))
  }

  /** `nextTimeStep()`: the interior of the update buffer is copied into the
      committed buffer; the sink frame and the update buffer are untouched. */
  function NextTimeStep(g: Grid): (r: Grid)
    requires Valid(g)
    ensures Valid(r) && r.rows == g.rows && r.columns == g.columns && r.update == g.update
    ensures SameInterior(r.cells, g.update, g.rows, g.columns)
    ensures SameBorder(r.cells, g.cells, g.rows, g.columns)
  {
    g.(cells := seq(g.rows, i => seq(g.columns, j =>
                  if InInterior(g.rows, g.columns, i, j) then At(g.update, i, j)
                  else At(g.cells, i, j))))
  }

  /** Committing twice without an intervening update commits nothing new. */
  lemma NextTimeStepIdempotent(g: Grid)
    requires Valid(g)
    ensures NextTimeStep(NextTimeStep(g)) == NextTimeStep(g)
  {
    var once := NextTimeStep(g);
    var twice := NextTimeStep(once);
    InteriorAndBorder(twice.cells, once.cells, g.rows, g.columns);
  }

  /** `setAll` and `nextTimeStep` keep a zero sink frame zero. */
  lemma MutatorsKeepBorderZero(g: Grid, v: int)
    requires Valid(g) && BordersZero(g)
    ensures BordersZero(SetAll(g, v))
    ensures BordersZero(NextTimeStep(g))
  {
  }
}
