/** Small worked configurations of the automaton, run through `update()`
    under every cutoff for which it terminates. */
module Scenarios {
  import opened JavaSemantics
  import opened Matrix
  import opened ParallelGrid
  import opened GridUpdate

  /** A lattice whose every height is between 0 and 3 is stable: nothing
      topples, so every cell keeps its height. */
  lemma LowHeightsAreStable(m: Mat, rows: int, cols: int)
    requires IsRect(m, rows, cols) && BorderZero(m, rows, cols)
    requires forall i, j :: InInterior(rows, cols, i, j) ==> 0 <= m[i][j] < 4
    ensures IsFixedPoint(m, rows, cols)
  {
    forall i, j | InInterior(rows, cols, i, j)
      ensures Topple(m, i, j) == m[i][j]
    {
      NoGrainsBelowFour(m, rows, cols, i - 1, j);
      NoGrainsBelowFour(m, rows, cols, i + 1, j);
      NoGrainsBelowFour(m, rows, cols, i, j - 1);
      NoGrainsBelowFour(m, rows, cols, i, j + 1);
    }
  }

  /** A cell below 4, or outside the interior of a zero-framed lattice, hands
      no grains to its neighbours. */
  lemma NoGrainsBelowFour(m: Mat, rows: int, cols: int, i: int, j: int)
    requires IsRect(m, rows, cols) && BorderZero(m, rows, cols)
    requires forall i, j :: InInterior(rows, cols, i, j) ==> 0 <= m[i][j] < 4
    ensures Div(At(m, i, j), 4) == 0
  {
    if 0 <= i < rows && 0 <= j < cols && !InInterior(rows, cols, i, j) {
      assert OnBorder(rows, cols, i, j);
    }
  }

  /** `setAll(v)` on a fresh 1 by 1 grid: a 3 by 3 lattice with a zero frame
      and `v` in its one interior cell. */
  lemma SingleCell(v: int)
    ensures Create(1, 1).Ok?
    ensures var g := SetAll(Create(1, 1).value, v);
            Valid(g) && g.rows == 3 && g.columns == 3 && BorderZero(g.cells, 3, 3) && g.cells[1][1] == v
  {
    assert InInterior(3, 3, 1, 1);
  }

  /** `update()` on any 1 by 1 grid with a zero frame holding `v`: the cell
      keeps `v % 4`, the grains it sheds all fall into the sink, and a change
      is reported exactly when `v` is not already below the threshold. */
  lemma OneCellUpdate(p: Policy, g: Grid, v: int)
    requires Valid(g) && g.rows == 3 && g.columns == 3 && BorderZero(g.cells, 3, 3) && g.cells[1][1] == v
    requires Terminates(p, 3, 1, 2)
    ensures Update(p, g).0.cells[1][1] == Rem(v, 4)
    ensures Update(p, g).1 <==> Rem(v, 4) != v
  {
    assert InInterior(3, 3, 1, 1);
    assert OnBorder(3, 3, 0, 1) && OnBorder(3, 3, 2, 1) && OnBorder(3, 3, 1, 0) && OnBorder(3, 3, 1, 2);
    assert Topple(g.cells, 1, 1) == Rem(v, 4);
    var r := Update(p, g);
    if r.1 {
      assert r.0.cells[1][1] == Topple(g.cells, 1, 1);
    } else {
      assert IsFixedPoint(g.cells, 3, 3);
      assert Topple(g.cells, 1, 1) == g.cells[1][1];
    }
  }

  /** A 1 by 1 grid holding 3: under every cutoff for which `update()`
      returns, it reports no change and the cell keeps its height. */
  lemma SingleCellBelowThreshold(p: Policy)
    ensures Create(1, 1).Ok?
    ensures var g := SetAll(Create(1, 1).value, 3);
            Terminates(p, g.columns, 1, g.rows - 1) ==>
              !Update(p, g).1 && Get(Update(p, g).0, 1, 1) == Ok(3)
  {
    SingleCell(3);
    var g := SetAll(Create(1, 1).value, 3);
    if Terminates(p, 3, 1, 2) {
      OneCellUpdate(p, g, 3);
    }
  }

  /** A 1 by 1 grid holding 5: under every cutoff for which `update()`
      returns, it reports a change and the cell keeps `5 % 4 == 1`; the
      other four grains fall into the sink. */
  lemma SingleCellTopples(p: Policy)
    ensures Create(1, 1).Ok?
    ensures var g := SetAll(Create(1, 1).value, 5);
            Terminates(p, g.columns, 1, g.rows - 1) ==>
              Update(p, g).1 && Get(Update(p, g).0, 1, 1) == Ok(1)
  {
    SingleCell(5);
    var g := SetAll(Create(1, 1).value, 5);
    if Terminates(p, 3, 1, 2) {
      OneCellUpdate(p, g, 5);
    }
  }

  /** A 3 by 3 grid with 4 grains in the centre. */
  function Centre(): (g: Grid)
    ensures Valid(g) && g.rows == 5 && g.columns == 5 && BorderZero(g.cells, 5, 5)
    ensures forall i, j :: At(g.cells, i, j) == if i == 2 && j == 2 then 4 else 0
  {
    var src := [[0, 0, 0], [0, 4, 0], [0, 0, 0]];
    var g := FromArray(src).value;
    assert forall i, j :: At(g.cells, i, j) == if i == 2 && j == 2 then 4 else 0 by {
      forall i, j
        ensures At(g.cells, i, j) == if i == 2 && j == 2 then 4 else 0
      {
        if InInterior(5, 5, i, j) {
          assert g.cells[i][j] == src[i - 1][j - 1];
        } else if 0 <= i < 5 && 0 <= j < 5 {
          assert OnBorder(5, 5, i, j);
        }
      }
    }
    g
  }

  /** The next heights of the centre configuration. */
  lemma CentreStep(i: int, j: int)
    requires InInterior(5, 5, i, j)
    ensures Topple(Centre().cells, i, j)
         == if i == 2 && j == 2 then 0
            else if (i == 2 || j == 2) then 1
            else 0
  {
  }

  /** The centre topples: under every cutoff for which `update()` returns,
      it drops to 0, each orthogonal neighbour rises to 1, the corners stay
      0, and `update()` reports a change. */
  lemma CentreTopples(p: Policy)
    ensures var g := Centre();
            Terminates(p, g.columns, 1, g.rows - 1) ==>
              var r := Update(p, g);
              r.1 && forall i, j :: InInterior(5, 5, i, j) ==>
                r.0.cells[i][j] == if i == 2 && j == 2 then 0 else if i == 2 || j == 2 then 1 else 0
  {
    var g := Centre();
    if Terminates(p, g.columns, 1, g.rows - 1) {
      assert InInterior(5, 5, 2, 2) && At(g.cells, 2, 2) == 4;
      CentreStep(2, 2);
      assert !IsFixedPoint(g.cells, 5, 5);
      var (after, changed) := Update(p, g);
      forall i, j | InInterior(5, 5, i, j)
        ensures after.cells[i][j] == if i == 2 && j == 2 then 0 else if i == 2 || j == 2 then 1 else 0
      {
        CentreStep(i, j);
      }
    }
  }

  /** The toppled centre configuration is stable: under every cutoff for
      which `update()` returns, a second `update()` reports no change. */
  lemma CentreSettles(p: Policy)
    ensures var g := Centre();
            Terminates(p, g.columns, 1, g.rows - 1) ==>
              var after := Update(p, g).0;
              !Update(p, after).1
  {
    var g := Centre();
    if Terminates(p, g.columns, 1, g.rows - 1) {
      var after := Update(p, g).0;
      forall i, j | InInterior(5, 5, i, j)
        ensures 0 <= after.cells[i][j] < 4
      {
        CentreStep(i, j);
      }
      LowHeightsAreStable(after.cells, 5, 5);
    }
  }
}
