/** The grid wave solver of src/waveSolver.ts: two cellCountX x cellCountY
    grids of reals (velocity and density) updated in place. The grids are
    first described as values (Grid, Field) with the sweep that Solve
    performs, then the class updates its arrays and is proved to follow that
    description. */
module Wave {
  import opened Util

  /** A grid as rows: g[i][j] is the cell in row i (x) and column j (y). */
  type Grid = seq<seq<real>>

  /** Both grids of the solver. */
  datatype Field = Field(density: Grid, velocity: Grid)

  /** The coefficients of one Solve call. */
  datatype Coeffs = Coeffs(friction: real, speed: real, timeStep: real)

  ghost predicate Shaped(g: Grid, rows: nat, cols: nat)
  {
    |g| == rows && forall i :: 0 <= i < rows ==> |g[i]| == cols
  }

  ghost predicate FieldShaped(f: Field, rows: nat, cols: nat)
  {
    Shaped(f.density, rows, cols) && Shaped(f.velocity, rows, cols)
  }

  /** rows lists of cols zeroes, as the constructor builds them. */
  function Zeros(rows: nat, cols: nat): (g: Grid)
    ensures Shaped(g, rows, cols)
    ensures forall i, j :: 0 <= i < rows && 0 <= j < cols ==> g[i][j] == 0.0
  {
    seq(rows, _ => seq(cols, _ => 0.0))
  }

  /** _GetAdjacentSum: the four axis neighbours of (i, j), each index
      clamped into the grid, so a border cell counts itself in place of a
      missing neighbour. */
  function AdjacentSum(g: Grid, i: int, j: int): real
    requires 0 <= i < |g| && 0 <= j < |g[i]|
    requires forall p :: 0 <= p < |g| ==> |g[p]| == |g[i]|
  {
    g[Max(i - 1, 0)][j]
    + g[i][Max(j - 1, 0)]
    + g[Min(i + 1, |g| - 1)][j]
    + g[i][Min(j + 1, |g[i]| - 1)]
  }

  /** At every cell, the adjacent sum less four times the cell is the sum
      of the differences to the neighbours that exist: a missing neighbour
      contributes nothing, so no density flows across the border. */
  lemma AdjacentSumNeighbours(g: Grid, rows: nat, cols: nat, i: int, j: int)
    requires Shaped(g, rows, cols) && 0 <= i < rows && 0 <= j < cols
    ensures AdjacentSum(g, i, j) - 4.0 * g[i][j] ==
      (if i > 0 then g[i - 1][j] - g[i][j] else 0.0)
      + (if j > 0 then g[i][j - 1] - g[i][j] else 0.0)
      + (if i < rows - 1 then g[i + 1][j] - g[i][j] else 0.0)
      + (if j < cols - 1 then g[i][j + 1] - g[i][j] else 0.0)
  {
  }

  /** Grids that agree everywhere are equal. */
  lemma GridExt(g: Grid, h: Grid, rows: nat, cols: nat)
    requires Shaped(g, rows, cols) && Shaped(h, rows, cols)
    requires forall i, j :: 0 <= i < rows && 0 <= j < cols ==> g[i][j] == h[i][j]
    ensures g == h
  {
    forall i | 0 <= i < rows
      ensures g[i] == h[i]
    {
      assert forall j :: 0 <= j < cols ==> g[i][j] == h[i][j];
    }
  }

  /** The grid with cell (i, j) set to x and every other cell as it was. */
  function SetCell(g: Grid, i: int, j: int, x: real): Grid
    requires 0 <= i < |g| && 0 <= j < |g[i]|
  {
    g[i := g[i][j := x]]
  }

  /** The grid with amount added to cell (i, j) and every other cell as it
      was. */
  function AddAt(g: Grid, i: int, j: int, amount: real): (r: Grid)
    requires 0 <= i < |g| && 0 <= j < |g[i]|
    ensures |r| == |g| && forall p :: 0 <= p < |g| ==> |r[p]| == |g[p]|
    ensures r[i][j] == g[i][j] + amount
    ensures forall p, q :: 0 <= p < |g| && 0 <= q < |g[p]| && (p != i || q != j) ==> r[p][q] == g[p][q]
  {
    SetCell(g, i, j, g[i][j] + amount)
  }

  /** The velocity update rule: damping by friction plus the density
      difference scaled by timeStep * speed. Without a density difference
      the velocity only decays; with positive timeStep and speed the
      difference accelerates the cell towards higher neighbours and away
      from lower ones. */
  function NewVelocity(friction: real, speed: real, timeStep: real, v: real, densDiff: real): (r: real)
    ensures densDiff == 0.0 ==> r == friction * v
    ensures timeStep > 0.0 && speed > 0.0 ==> (r > friction * v <==> densDiff > 0.0)
    ensures timeStep > 0.0 && speed > 0.0 ==> (r < friction * v <==> densDiff < 0.0)
  {
    ScaledSign(densDiff, timeStep, speed);
    friction * v + densDiff * timeStep * speed
  }

  /** A product with two positive factors has the sign of the third. */
  lemma ScaledSign(d: real, a: real, b: real)
    ensures a > 0.0 && b > 0.0 ==> (d * a * b > 0.0 <==> d > 0.0) && (d * a * b < 0.0 <==> d < 0.0)
  {
    if a > 0.0 && b > 0.0 {
      assert a * b > 0.0;
      assert d * a * b == d * (a * b);
    }
  }

  /** The update of one cell in Solve, against the current (partially
      updated) field: the new velocity is friction * v plus the clamped
      Laplacian times timeStep * speed, and the density then grows by that
      new velocity. No other cell changes. */
  function UpdateCell(f: Field, rows: nat, cols: nat, c: Coeffs, i: int, j: int): (r: Field)
    requires FieldShaped(f, rows, cols) && 0 <= i < rows && 0 <= j < cols
    ensures FieldShaped(r, rows, cols)
    ensures r.velocity[i][j] ==
      NewVelocity(c.friction, c.speed, c.timeStep, f.velocity[i][j], AdjacentSum(f.density, i, j) - 4.0 * f.density[i][j])
    ensures r.density[i][j] == f.density[i][j] + r.velocity[i][j]
    ensures forall p, q :: 0 <= p < rows && 0 <= q < cols && (p != i || q != j) ==>
      r.density[p][q] == f.density[p][q] && r.velocity[p][q] == f.velocity[p][q]
  {
    var v := NewVelocity(c.friction, c.speed, c.timeStep, f.velocity[i][j], AdjacentSum(f.density, i, j) - 4.0 * f.density[i][j]);
    Field(SetCell(f.density, i, j, f.density[i][j] + v), SetCell(f.velocity, i, j, v))
  }

  /** Cell (p, q) comes before cell (i, j) in row-major order. */
  predicate Before(p: int, q: int, i: int, j: int)
  {
    p < i || (p == i && q < j)
  }

  /** The field after Solve has visited, in row-major order, every cell
      before (i, j); (rows, 0) stands for the whole pass. */
  function Sweep(f: Field, rows: nat, cols: nat, c: Coeffs, i: nat, j: nat): (r: Field)
    requires FieldShaped(f, rows, cols)
    requires i <= rows && j <= cols && (j > 0 ==> i < rows)
    ensures FieldShaped(r, rows, cols)
    decreases i, j
  {
    if j > 0 then UpdateCell(Sweep(f, rows, cols, c, i, j - 1), rows, cols, c, i, j - 1)
    else if i > 0 then Sweep(f, rows, cols, c, i - 1, cols)
    else f
  }

  /** The whole of one Solve pass. */
  function SolvePass(f: Field, rows: nat, cols: nat, c: Coeffs): (r: Field)
    requires FieldShaped(f, rows, cols)
    ensures FieldShaped(r, rows, cols)
  {
    Sweep(f, rows, cols, c, rows, 0)
  }

  /** Cells at or after (i, j) still hold their values from before the
      pass. */
  lemma {:induction false} SweepAhead(f: Field, rows: nat, cols: nat, c: Coeffs, i: nat, j: nat, p: int, q: int)
    requires FieldShaped(f, rows, cols)
    requires i <= rows && j <= cols && (j > 0 ==> i < rows)
    requires 0 <= p < rows && 0 <= q < cols && !Before(p, q, i, j)
    ensures Sweep(f, rows, cols, c, i, j).density[p][q] == f.density[p][q]
    ensures Sweep(f, rows, cols, c, i, j).velocity[p][q] == f.velocity[p][q]
    decreases i, j
  {
    if j > 0 {
      SweepAhead(f, rows, cols, c, i, j - 1, p, q);
    } else if i > 0 {
      SweepAhead(f, rows, cols, c, i - 1, cols, p, q);
    }
  }

  /** A cell, once visited, keeps the value it was given for the rest of
      the pass. */
  lemma {:induction false} SweepSettled(f: Field, rows: nat, cols: nat, c: Coeffs, i: nat, j: nat, p: int, q: int)
    requires FieldShaped(f, rows, cols)
    requires i <= rows && j <= cols && (j > 0 ==> i < rows)
    requires 0 <= p < rows && 0 <= q < cols && Before(p, q, i, j)
    ensures Sweep(f, rows, cols, c, i, j).density[p][q] == Sweep(f, rows, cols, c, p, q + 1).density[p][q]
    ensures Sweep(f, rows, cols, c, i, j).velocity[p][q] == Sweep(f, rows, cols, c, p, q + 1).velocity[p][q]
    decreases i, j
  {
    if j > 0 {
      if !(p == i && q == j - 1) {
        var prev := Sweep(f, rows, cols, c, i, j - 1);
        assert Sweep(f, rows, cols, c, i, j) == UpdateCell(prev, rows, cols, c, i, j - 1);
        SweepSettled(f, rows, cols, c, i, j - 1, p, q);
      }
    } else if i > 0 {
      assert Sweep(f, rows, cols, c, i, j) == Sweep(f, rows, cols, c, i - 1, cols);
      SweepSettled(f, rows, cols, c, i - 1, cols, p, q);
    }
  }

  /** The grid that holds after's values at cells before (i, j) and before's
      values at the others. */
  function Blend(before: Grid, after: Grid, rows: nat, cols: nat, i: int, j: int): (r: Grid)
    requires Shaped(before, rows, cols) && Shaped(after, rows, cols)
    ensures Shaped(r, rows, cols)
    ensures forall p, q :: 0 <= p < rows && 0 <= q < cols ==>
      r[p][q] == if Before(p, q, i, j) then after[p][q] else before[p][q]
  {
    seq(rows, p requires 0 <= p < rows =>
      seq(cols, q requires 0 <= q < cols => if Before(p, q, i, j) then after[p][q] else before[p][q]))
  }

  /** When Solve reaches cell (i, j), the cells before it already hold
      their final values and the others their values from before the pass:
      the update is single-buffered, not a snapshot of the previous step. */
  lemma SweepIsBlend(f: Field, rows: nat, cols: nat, c: Coeffs, i: nat, j: nat)
    requires FieldShaped(f, rows, cols)
    requires i < rows && j < cols
    ensures var g := SolvePass(f, rows, cols, c);
      && Sweep(f, rows, cols, c, i, j).density == Blend(f.density, g.density, rows, cols, i, j)
      && Sweep(f, rows, cols, c, i, j).velocity == Blend(f.velocity, g.velocity, rows, cols, i, j)
  {
    var g := SolvePass(f, rows, cols, c);
    var s := Sweep(f, rows, cols, c, i, j);
    forall p, q | 0 <= p < rows && 0 <= q < cols
      ensures s.density[p][q] == Blend(f.density, g.density, rows, cols, i, j)[p][q]
      ensures s.velocity[p][q] == Blend(f.velocity, g.velocity, rows, cols, i, j)[p][q]
    {
      if Before(p, q, i, j) {
        SweepSettled(f, rows, cols, c, i, j, p, q);
        SweepSettled(f, rows, cols, c, rows, 0, p, q);
      } else {
        SweepAhead(f, rows, cols, c, i, j, p, q);
      }
    }
    GridExt(s.density, Blend(f.density, g.density, rows, cols, i, j), rows, cols);
    GridExt(s.velocity, Blend(f.velocity, g.velocity, rows, cols, i, j), rows, cols);
  }

  /** The equations one Solve pass satisfies at every cell: the new
      velocity is friction times the old velocity plus the clamped
      Laplacian, taken over the new densities of the neighbours already
      visited and the old densities of the rest, times timeStep * speed;
      the new density is the old one plus the new velocity. */
  lemma SolvePassEquations(f: Field, rows: nat, cols: nat, c: Coeffs, i: int, j: int)
    requires FieldShaped(f, rows, cols)
    requires 0 <= i < rows && 0 <= j < cols
    ensures var g := SolvePass(f, rows, cols, c);
      var seen := Blend(f.density, g.density, rows, cols, i, j);
      && g.velocity[i][j] ==
           NewVelocity(c.friction, c.speed, c.timeStep, f.velocity[i][j], AdjacentSum(seen, i, j) - 4.0 * f.density[i][j])
      && g.density[i][j] == f.density[i][j] + g.velocity[i][j]
  {
    var g := SolvePass(f, rows, cols, c);
    SweepIsBlend(f, rows, cols, c, i, j);
    SweepAhead(f, rows, cols, c, i, j, i, j);
    SweepSettled(f, rows, cols, c, rows, 0, i, j);
  }

  /** A field at rest (zero velocity) with one density everywhere. */
  ghost predicate AtRest(f: Field, rows: nat, cols: nat, level: real)
  {
    && FieldShaped(f, rows, cols)
    && (forall p, q :: 0 <= p < rows && 0 <= q < cols ==> f.density[p][q] == level)
    && (forall p, q :: 0 <= p < rows && 0 <= q < cols ==> f.velocity[p][q] == 0.0)
  }

  /** At rest with equal densities the clamped Laplacian of any cell is
      zero, so updating it changes nothing. */
  lemma UpdateCellAtRest(f: Field, rows: nat, cols: nat, c: Coeffs, level: real, i: int, j: int)
    requires AtRest(f, rows, cols, level)
    requires 0 <= i < rows && 0 <= j < cols
    ensures UpdateCell(f, rows, cols, c, i, j) == f
  {
    var r := UpdateCell(f, rows, cols, c, i, j);
    var densDiff := AdjacentSum(f.density, i, j) - 4.0 * f.density[i][j];
    assert densDiff == 0.0;
    assert r.velocity[i][j] == 0.0 by {
      assert r.velocity[i][j] == NewVelocity(c.friction, c.speed, c.timeStep, 0.0, densDiff);
    }
    GridExt(r.density, f.density, rows, cols);
    GridExt(r.velocity, f.velocity, rows, cols);
  }

  /** At rest with equal densities the clamped Laplacian is zero everywhere,
      so no cell changes while the pass runs. */
  lemma {:induction false} SweepAtRest(f: Field, rows: nat, cols: nat, c: Coeffs, level: real, i: nat, j: nat)
    requires AtRest(f, rows, cols, level)
    requires i <= rows && j <= cols && (j > 0 ==> i < rows)
    ensures Sweep(f, rows, cols, c, i, j) == f
    decreases i, j
  {
    if j > 0 {
      SweepAtRest(f, rows, cols, c, level, i, j - 1);
      UpdateCellAtRest(f, rows, cols, c, level, i, j - 1);
    } else if i > 0 {
      SweepAtRest(f, rows, cols, c, level, i - 1, cols);
    }
  }

  /** A field at rest with all densities equal is a fixed point of Solve. */
  lemma RestIsFixedPoint(f: Field, rows: nat, cols: nat, c: Coeffs, level: real)
    requires AtRest(f, rows, cols, level)
    ensures SolvePass(f, rows, cols, c) == f
  {
    SweepAtRest(f, rows, cols, c, level, rows, 0);
  }

  /** Boundary clamping at the corner (0, 0): the missing upper and left
      neighbours are replaced by the cell itself. */
  lemma AdjacentSumAtCorner(g: Grid, rows: nat, cols: nat)
    requires Shaped(g, rows, cols) && rows >= 2 && cols >= 2
    ensures AdjacentSum(g, 0, 0) == 2.0 * g[0][0] + g[1][0] + g[0][1]
  {
  }

  class WaveSolver {
    var velocity: Grid
    var density: Grid
    const friction: real
    const speed: real

    /** Number of columns, read from the first row as the source does. */
    function Cols(): nat
      reads this
    {
      if |velocity| == 0 then 0 else |velocity[0]|
    }

    /** Both grids have the same rectangular shape. */
    ghost predicate Valid()
      reads this
    {
      FieldShaped(State(), |velocity|, Cols())
    }

    function State(): Field
      reads this
    {
      Field(density, velocity)
    }

    /** Builds cellCountX rows of cellCountY zeroes in both grids, with the
        fixed coefficients friction = 0.58 and speed = 20. */
    constructor (cellCountX: nat, cellCountY: nat)
      ensures Valid()
      ensures density == Zeros(cellCountX, cellCountY)
      ensures velocity == Zeros(cellCountX, cellCountY)
      ensures friction == 0.58 && speed == 20.0
    {
      velocity := [];
      density := [];
      friction := 0.58;
      speed := 20.0;
      new;
      for i := 0 to cellCountX
        invariant velocity == Zeros(i, cellCountY) && density == Zeros(i, cellCountY)
      {
        velocity := velocity + [[]];
        density := density + [[]];
        for j := 0 to cellCountY
          invariant velocity == Zeros(i, cellCountY) + [Zeros(1, j)[0]]
          invariant density == Zeros(i, cellCountY) + [Zeros(1, j)[0]]
        {
          velocity := velocity[i := velocity[i] + [0.0]];
          density := density[i := density[i] + [0.0]];
          assert velocity[i] == Zeros(1, j + 1)[0];
        }
        assert velocity == Zeros(i + 1, cellCountY);
      }
    }

    /** One in-place pass over the grid in row-major order; the result is
        the sweep described by SolvePass, and the shape is kept. */
    method Solve(timeStep: real)
      requires Valid()
      modifies this
      ensures Valid() && |velocity| == old(|velocity|) && Cols() == old(Cols())
      ensures State() == SolvePass(old(State()), |velocity|, Cols(), Coeffs(friction, speed, timeStep))
    {
      ghost var rows, cols := |velocity|, Cols();
      ghost var c := Coeffs(friction, speed, timeStep);
      ghost var f0 := State();
      var i := 0;
      while i < |velocity|
        invariant 0 <= i <= rows
        invariant State() == Sweep(f0, rows, cols, c, i, 0)
      {
        var j := 0;
        while j < |velocity[i]|
          invariant 0 <= j <= cols
          invariant State() == Sweep(f0, rows, cols, c, i, j)
        {
          var densDiff := AdjacentSum(density, i, j) - 4.0 * density[i][j];
          velocity := velocity[i := velocity[i][j := NewVelocity(friction, speed, timeStep, velocity[i][j], densDiff)]];
          density := density[i := density[i][j := density[i][j] + velocity[i][j]]];
          j := j + 1;
        }
        i := i + 1;
      }
    }

    /** Adds amount to the velocity of the cell at the floored indices; no
        other cell and no density changes. */
    method AddVelocity(amount: real, i: real, j: real)
      requires Valid()
      requires 0 <= i.Floor < |velocity| && 0 <= j.Floor < Cols()
      modifies this
      ensures velocity == AddAt(old(velocity), i.Floor, j.Floor, amount)
      ensures density == old(density)
      ensures Valid() && Cols() == old(Cols())
    {
      velocity := velocity[i.Floor := velocity[i.Floor][j.Floor := velocity[i.Floor][j.Floor] + amount]];
    }

    /** Number of rows: the constructor's cellCountX. */
    function GetCellCountX(): (n: nat)
      reads this
      requires Valid()
      ensures n == |velocity| == |density|
    {
      |velocity|
    }

    /** Number of columns, read from the first row, so there must be one. */
    function GetCellCountY(): (n: nat)
      reads this
      requires Valid() && |velocity| >= 1
      ensures forall p :: 0 <= p < |velocity| ==> n == |velocity[p]| == |density[p]|
    {
      |velocity[0]|
    }

    /** The density at the floored indices. */
    function GetDensity(i: real, j: real): (r: real)
      reads this
      requires Valid()
      requires 0 <= i.Floor < |density| && 0 <= j.Floor < Cols()
    {
      density[i.Floor][j.Floor]
    }

    /** The velocity at the floored indices. */
    function GetVelocity(i: real, j: real): (r: real)
      reads this
      requires Valid()
      requires 0 <= i.Floor < |velocity| && 0 <= j.Floor < Cols()
    {
      velocity[i.Floor][j.Floor]
    }
  }
}
