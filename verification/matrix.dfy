/** Rectangular integer matrices, the shape of the grid's two buffers. */
module Matrix {

  type Mat = seq<seq<int>>

  /** `m` has exactly `rows` rows of exactly `cols` entries each. */
  ghost predicate IsRect(m: Mat, rows: int, cols: int) {
    |m| == rows && forall i :: 0 <= i < |m| ==> |m[i]| == cols
  }

  /** A `rows` by `cols` matrix holding `v` everywhere; with `v == 0` this is
      what Java's `new int[rows][cols]` allocates. */
  function Fill(rows: nat, cols: nat, v: int): (m: Mat)
    ensures IsRect(m, rows, cols)
    ensures forall i, j :: 0 <= i < rows && 0 <= j < cols ==> m[i][j] == v
  {
    seq(rows, _ => seq(cols, _ => v))
  }

  /** Total read access: the entry at `(i, j)`, or 0 outside the matrix. */
  function At(m: Mat, i: int, j: int): int {
    if 0 <= i < |m| && 0 <= j < |m[i]| then m[i][j] else 0
  }

  /** Row `i` of a lattice with `rows` padded rows is neither its first nor
      its last row. */
  predicate InteriorRow(rows: int, i: int) {
    1 <= i < rows - 1
  }

  /** Column `j` of a lattice with `cols` padded columns is neither its first
      nor its last column. */
  predicate InteriorCol(cols: int, j: int) {
    1 <= j < cols - 1
  }

  /** The cell `(i, j)` of a `rows` by `cols` padded lattice is an interior
      cell: neither in the first or last row nor in the first or last column. */
  predicate InInterior(rows: int, cols: int, i: int, j: int) {
    InteriorRow(rows, i) && InteriorCol(cols, j)
  }

  /** The cell `(i, j)` lies in the one-cell "sink" frame of the lattice. */
  predicate OnBorder(rows: int, cols: int, i: int, j: int) {
    0 <= i < rows && 0 <= j < cols && !InInterior(rows, cols, i, j)
  }

  /** Every sink cell of `m` holds 0. */
  ghost predicate BorderZero(m: Mat, rows: int, cols: int)
    requires IsRect(m, rows, cols)
  {
    forall i, j :: OnBorder(rows, cols, i, j) ==> m[i][j] == 0
  }

  /** `a` and `b` agree on every sink cell. */
  ghost predicate SameBorder(a: Mat, b: Mat, rows: int, cols: int)
    requires IsRect(a, rows, cols) && IsRect(b, rows, cols)
  {
    forall i, j :: OnBorder(rows, cols, i, j) ==> a[i][j] == b[i][j]
  }

  /** `a` and `b` agree on every interior cell. */
  ghost predicate SameInterior(a: Mat, b: Mat, rows: int, cols: int)
    requires IsRect(a, rows, cols) && IsRect(b, rows, cols)
  {
    forall i, j :: InInterior(rows, cols, i, j) ==> a[i][j] == b[i][j]
  }

  /** Two matrices of the same shape that agree cell by cell are equal. */
  lemma Extensionality(a: Mat, b: Mat, rows: int, cols: int)
    requires IsRect(a, rows, cols) && IsRect(b, rows, cols)
    requires forall i, j :: 0 <= i < rows && 0 <= j < cols ==> a[i][j] == b[i][j]
    ensures a == b
  {
    forall i | 0 <= i < rows
      ensures a[i] == b[i]
    {
      assert forall j :: 0 <= j < cols ==> a[i][j] == b[i][j];
    }
  }

  /** A matrix that agrees with `b` on the interior and on the border is `b`. */
  lemma InteriorAndBorder(a: Mat, b: Mat, rows: int, cols: int)
    requires IsRect(a, rows, cols) && IsRect(b, rows, cols)
    requires SameInterior(a, b, rows, cols) && SameBorder(a, b, rows, cols)
    ensures a == b
  {
    forall i, j | 0 <= i < rows && 0 <= j < cols
      ensures a[i][j] == b[i][j]
    {
      if InInterior(rows, cols, i, j) {
      } else {
        assert OnBorder(rows, cols, i, j);
      }
    }
    Extensionality(a, b, rows, cols);
  }
}
