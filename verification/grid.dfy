/** The environmental grid and its heat score.  Each cell carries its
    green percentage `verde_pc`; the column is min-max normalised over all
    cells and the heat score is one minus the normalised value, so less
    green means more heat. */
module HeatGrid {
  import opened Stats
  import opened MinMax

  /** One grid cell.  Its polygon only matters to the spatial join, which
      is an input of the model, so only the green percentage is kept. */
  datatype Cell = Cell(verdePc: real)

  /** The `verde_pc` column of the grid. */
  function Greens(cells: seq<Cell>): (g: seq<real>)
    ensures |g| == |cells|
    ensures forall i :: 0 <= i < |cells| ==> g[i] == cells[i].verdePc
    decreases |cells|
  {
    if |cells| == 0 then [] else [cells[0].verdePc] + Greens(cells[1..])
  }

  /** The grid can be normalised: it is non-empty and not every cell has
      the same green percentage. */
  predicate Scorable(cells: seq<Cell>) {
    NonDegenerate(Greens(cells))
  }

  /** Heat score of every cell: one minus its normalised green percentage.
      Every score is in [0, 1]; exactly the greenest cells score 0 and
      exactly the least green cells score 1; and a cell is at least as hot
      as another exactly when it is at most as green. */
  function HeatScores(cells: seq<Cell>): (h: seq<real>)
    requires Scorable(cells)
    ensures |h| == |cells|
    ensures forall i :: 0 <= i < |cells| ==> 0.0 <= h[i] <= 1.0
    ensures forall i :: 0 <= i < |cells| ==>
              (h[i] == 0.0 <==> cells[i].verdePc == Max(Greens(cells)))
    ensures forall i :: 0 <= i < |cells| ==>
              (h[i] == 1.0 <==> cells[i].verdePc == Min(Greens(cells)))
    ensures forall i, j :: 0 <= i < |cells| && 0 <= j < |cells| ==>
              (cells[i].verdePc <= cells[j].verdePc <==> h[j] <= h[i])
  {
    HeatFacts(cells);
    Complement(Normalise(Greens(cells)))
  }

  /** The facts `HeatScores` promises, derived entry by entry from those
      of `Normalise`. */
  lemma HeatFacts(cells: seq<Cell>)
    requires Scorable(cells)
    ensures forall i :: 0 <= i < |cells| ==>
              0.0 <= Complement(Normalise(Greens(cells)))[i] <= 1.0
    ensures forall i :: 0 <= i < |cells| ==>
              (Complement(Normalise(Greens(cells)))[i] == 0.0
               <==> cells[i].verdePc == Max(Greens(cells)))
    ensures forall i :: 0 <= i < |cells| ==>
              (Complement(Normalise(Greens(cells)))[i] == 1.0
               <==> cells[i].verdePc == Min(Greens(cells)))
    ensures forall i, j :: 0 <= i < |cells| && 0 <= j < |cells| ==>
              (cells[i].verdePc <= cells[j].verdePc
               <==> Complement(Normalise(Greens(cells)))[j]
                    <= Complement(Normalise(Greens(cells)))[i])
  {
    var g := Greens(cells);
    var n := Normalise(g);
    var h := Complement(n);
    forall i | 0 <= i < |cells|
      ensures 0.0 <= h[i] <= 1.0
      ensures h[i] == 0.0 <==> cells[i].verdePc == Max(g)
      ensures h[i] == 1.0 <==> cells[i].verdePc == Min(g)
    {
      assert h[i] == 1.0 - n[i];
      assert g[i] == cells[i].verdePc;
    }
    forall i, j | 0 <= i < |cells| && 0 <= j < |cells|
      ensures cells[i].verdePc <= cells[j].verdePc <==> h[j] <= h[i]
    {
      assert g[i] <= g[j] <==> n[i] <= n[j];
    }
  }

  /** One minus each entry. */
  function Complement(ns: seq<real>): (h: seq<real>)
    ensures |h| == |ns|
    ensures forall i :: 0 <= i < |ns| ==> h[i] == 1.0 - ns[i]
    decreases |ns|
  {
    if |ns| == 0 then [] else [1.0 - ns[0]] + Complement(ns[1..])
  }

  /** The heat column together with the grid's extreme green percentages
      determines every cell's green percentage: the cell sits at position
      1 - heat on the scale from the least to the most green. */
  lemma HeatDeterminesGreen(cells: seq<Cell>, i: int)
    requires Scorable(cells)
    requires 0 <= i < |cells|
    ensures cells[i].verdePc
            == FromUnit(1.0 - HeatScores(cells)[i], Min(Greens(cells)), Max(Greens(cells)))
  {
    var g := Greens(cells);
    var lo, hi := Min(g), Max(g);
    assert Normalise(g)[i] == Unit(g[i], lo, hi);
    UnitRoundTrip(g[i], lo, hi);
  }

  /** The grid with every green percentage multiplied by c. */
  function RescaleGreens(c: real, cells: seq<Cell>): (r: seq<Cell>)
    ensures |r| == |cells|
    ensures forall i :: 0 <= i < |cells| ==> r[i].verdePc == Times(c, cells[i].verdePc)
    decreases |cells|
  {
    if |cells| == 0 then []
    else [Cell(Times(c, cells[0].verdePc))] + RescaleGreens(c, cells[1..])
  }

  /** The heat score does not depend on the scale `verde_pc` is recorded
      in: a grid recorded in percent (0-100) and the same grid recorded as
      fractions (0-1), or in any other positive multiple, score alike. */
  lemma HeatScaleInvariant(c: real, cells: seq<Cell>)
    requires c > 0.0
    requires Scorable(cells)
    ensures Scorable(RescaleGreens(c, cells))
    ensures HeatScores(RescaleGreens(c, cells)) == HeatScores(cells)
  {
    var scaled := RescaleGreens(c, cells);
    assert Greens(scaled) == Scale(c, Greens(cells));
    NormaliseScaleInvariant(c, Greens(cells));
  }

  /** When the data spans exactly 0 to 1 the normalised score coincides
      with the direct formula 1 - verde_pc, and when it spans exactly 0 to
      100 with 1 - verde_pc / 100. */
  lemma HeatMatchesDirectFormula(cells: seq<Cell>, i: int)
    requires Scorable(cells)
    requires 0 <= i < |cells|
    requires Min(Greens(cells)) == 0.0
    ensures Max(Greens(cells)) == 1.0 ==> HeatScores(cells)[i] == 1.0 - cells[i].verdePc
    ensures Max(Greens(cells)) == 100.0 ==>
              HeatScores(cells)[i] == 1.0 - cells[i].verdePc / 100.0
  {
    var g := Greens(cells);
    var lo, hi := Min(g), Max(g);
    assert Normalise(g)[i] == Unit(g[i], lo, hi);
    if hi == 1.0 {
      assert Unit(g[i], lo, hi) == Unit(g[i], 0.0, 1.0);
      UnitOnFixedScale(g[i], 1.0);
    }
    if hi == 100.0 {
      assert Unit(g[i], lo, hi) == Unit(g[i], 0.0, 100.0);
      UnitOnFixedScale(g[i], 100.0);
    }
  }

  /** On a scale that starts at 0 the position is a plain division. */
  lemma UnitOnFixedScale(x: real, top: real)
    requires top > 0.0
    ensures Unit(x, 0.0, top) == x / top
  {
  }
}
