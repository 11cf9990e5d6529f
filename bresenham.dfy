/** The integer line walk of src/bresenham.ts. The source reports each visited
    point through a callback; here the walk returns the points it visits, in
    order. */
module Raster {
  import opened Util

  function Abs(n: int): int { if n < 0 then -n else n }

  /** The loop state: the current point (x0, y0) and the error term. */
  datatype Walker = Walker(x: int, y: int, err: int)

  /** The arguments of one call: walk from (startX, startY) towards
      (endX, endY). */
  datatype Segment = Segment(startX: int, startY: int, endX: int, endY: int)
  {
    function Dx(): int { Abs(endX - startX) }
    function Dy(): int { Abs(endY - startY) }

    /** Step directions: +1 towards a larger end coordinate and -1 otherwise,
        including when both coordinates are equal. */
    function Sx(): int { if startX < endX then 1 else -1 }
    function Sy(): int { if startY < endY then 1 else -1 }

    /** Number of points the walk visits: the longer of the two extents. */
    function Steps(): int { if Dx() >= Dy() then Dx() else Dy() }

    function Start(): Walker { Walker(startX, startY, Dx() - Dy()) }
    function End(): Cell { Cell(endX, endY) }

    /** The loop test: the walk stops once both coordinates reach the end. */
    predicate AtEnd(w: Walker) { w.x == endX && w.y == endY }

    /** How far the walker has gone from the start along each axis,
        measured in the direction of the end point. */
    function ProgressX(w: Walker): int { if startX < endX then w.x - startX else startX - w.x }
    function ProgressY(w: Walker): int { if startY < endY then w.y - startY else startY - w.y }

    /** Visits left before the walk reaches the end: the major axis advances
        by one on every visit. */
    function Remaining(w: Walker): int
    {
      Steps() - (if Dx() >= Dy() then ProgressX(w) else ProgressY(w))
    }

    /** The loop invariant: the walker has gone a steps along x and b steps
        along y, neither past the end; the error term is
        (b + 1) dx - (a + 1) dy, and its deviation from the ideal line stays
        within half the major extent. */
    ghost predicate Inv(w: Walker)
    {
      StepInv(ProgressX(w), ProgressY(w), w.err, Dx(), Dy())
    }

    /** The body of the loop after the callback. */
    function Advance(w: Walker): (r: Walker)
      ensures r.x == w.x || r.x == w.x + Sx()
      ensures r.y == w.y || r.y == w.y + Sy()
      ensures Dx() > 0 || Dy() > 0 ==> r.x != w.x || r.y != w.y
    {
      var e2 := 2 * w.err;
      var w' := if e2 > -Dy() then Walker(w.x + Sx(), w.y, w.err - Dy()) else w;
      if e2 < Dx() then Walker(w'.x, w'.y + Sy(), w'.err + Dx()) else w'
    }

    /** The cell lies in the bounding box of the two end points. */
    predicate InBox(c: Cell)
    {
      && Min(startX, endX) <= c.x <= Max(startX, endX)
      && Min(startY, endY) <= c.y <= Max(startY, endY)
    }

    /** q follows p: each coordinate moves by 0 or by its step direction,
        and at least one of them moves, so q is a distinct 8-neighbour of p
        that is no further from the end. */
    predicate Neighbour(p: Cell, q: Cell)
    {
      && (q.x == p.x || q.x == p.x + Sx())
      && (q.y == p.y || q.y == p.y + Sy())
      && p != q
    }
  }

  /** n * k >= n for n >= 0 and k >= 1. */
  lemma MulAtLeast(n: int, k: int)
    requires n >= 0 && k >= 1
    ensures n * k >= n
    decreases k
  {
    if k > 1 {
      MulAtLeast(n, k - 1);
      assert n * k == n * (k - 1) + n;
    }
  }

  /** x-major walk: once x has arrived, the error bound forces y to have
      arrived too. */
  lemma ArrivesTogetherX(a: int, b: int, dx: int, dy: int)
    requires 0 <= b <= dy <= dx && dx > 0 && a == dx
    requires -dx <= 2 * (b * dx - a * dy)
    ensures b == dy
  {
    if b < dy {
      assert b * dx - a * dy == -(dx * (dy - b));
      MulAtLeast(dx, dy - b);
    }
  }

  /** y-major walk: once y has arrived, x has arrived too. */
  lemma ArrivesTogetherY(a: int, b: int, dx: int, dy: int)
    requires 0 <= a <= dx < dy && b == dy
    requires 2 * (b * dx - a * dy) <= dy
    ensures a == dx
  {
    if a < dx {
      AheadInY(a, b, dx, dy);
    }
  }

  /** On a diagonal (dx == dy) the walker never lags behind in y. */
  lemma DiagonalNoLag(a: int, b: int, dx: int)
    requires dx > 0 && -dx <= 2 * (b * dx - a * dx)
    ensures b * dx - a * dx >= 0
  {
    if b < a {
      assert b * dx - a * dx == -(dx * (a - b));
      MulAtLeast(dx, a - b);
    } else {
      assert b * dx - a * dx == dx * (b - a);
    }
  }

  /** When y has arrived but x has not, the deviation is at least dy. */
  lemma AheadInY(a: int, b: int, dx: int, dy: int)
    requires dy > 0 && b == dy && a < dx
    ensures b * dx - a * dy >= dy
  {
    assert b * dx - a * dy == dy * (dx - a);
    MulAtLeast(dy, dx - a);
  }

  /** When x has arrived but y has not, the deviation is at most -dx. */
  lemma AheadInX(a: int, b: int, dx: int, dy: int)
    requires dx > 0 && a == dx && b < dy
    ensures b * dx - a * dy <= -dx
  {
    assert b * dx - a * dy == -(dx * (dy - b));
    MulAtLeast(dx, dy - b);
  }

  /** The walker is at the end exactly when no visits remain. */
  lemma RemainingZeroIsEnd(seg: Segment, w: Walker)
    requires seg.Inv(w)
    ensures 0 <= seg.Remaining(w)
    ensures seg.Remaining(w) == 0 <==> seg.AtEnd(w)
  {
    var a, b, dx, dy := seg.ProgressX(w), seg.ProgressY(w), seg.Dx(), seg.Dy();
    if dx >= dy && a == dx && dx > 0 {
      ArrivesTogetherX(a, b, dx, dy);
    } else if dx < dy && b == dy {
      ArrivesTogetherY(a, b, dx, dy);
    }
  }

  /** The loop invariant on plain integers: a and b steps taken, error
      term e, extents dx and dy. */
  ghost predicate StepInv(a: int, b: int, e: int, dx: int, dy: int)
  {
    var m := if dx >= dy then dx else dy;
    && 0 <= a <= dx
    && 0 <= b <= dy
    && e - dx + dy == b * dx - a * dy
    && -m <= 2 * (e - dx + dy) <= m
  }

  /** The arithmetic of one loop pass: when the walk has not arrived, the
      major axis always steps, the minor axis never steps past its end, and
      the invariant is kept. */
  lemma StepArith(a: int, b: int, e: int, dx: int, dy: int)
    requires StepInv(a, b, e, dx, dy) && !(a == dx && b == dy)
    ensures var xs, ys := 2 * e > -dy, 2 * e < dx;
      && (dx >= dy ==> xs && a < dx)
      && (dx < dy ==> ys && b < dy)
      && StepInv(if xs then a + 1 else a, if ys then b + 1 else b,
                 e - (if xs then dy else 0) + (if ys then dx else 0), dx, dy)
  {
    var d := e - dx + dy;
    if dx >= dy {
      if a == dx {
        ArrivesTogetherX(a, b, dx, dy);
      }
      if dx == dy {
        DiagonalNoLag(a, b, dx);
      }
      if b == dy && dy > 0 {
        AheadInY(a, b, dx, dy);
      }
    } else {
      if b == dy {
        ArrivesTogetherY(a, b, dx, dy);
      }
      if a == dx && dx > 0 {
        AheadInX(a, b, dx, dy);
      }
    }
    var xs, ys := 2 * e > -dy, 2 * e < dx;
    if xs && ys {
      assert (b + 1) * dx - (a + 1) * dy == d + dx - dy;
    } else if xs {
      assert b * dx - (a + 1) * dy == d - dy;
    } else if ys {
      assert (b + 1) * dx - a * dy == d + dx;
    }
  }

  /** One pass of the loop body: the invariant is kept, exactly one visit
      fewer remains, and the walker moves to a distinct 8-neighbour in the
      direction of the end. */
  lemma AdvanceStep(seg: Segment, w: Walker)
    requires seg.Inv(w) && !seg.AtEnd(w)
    ensures seg.Inv(seg.Advance(w))
    ensures seg.Remaining(seg.Advance(w)) == seg.Remaining(w) - 1
    ensures seg.Neighbour(Cell(w.x, w.y), Cell(seg.Advance(w).x, seg.Advance(w).y))
  {
    var a, b, dx, dy := seg.ProgressX(w), seg.ProgressY(w), seg.Dx(), seg.Dy();
    assert StepInv(a, b, w.err, dx, dy);
    StepArith(a, b, w.err, dx, dy);
  }

  /** The points visited from walker state w until the loop test fails:
      the callback sees the current point before each step. */
  function Trace(seg: Segment, w: Walker): (r: seq<Cell>)
    requires seg.Inv(w)
    ensures |r| == seg.Remaining(w)
    ensures r == [] <==> seg.AtEnd(w)
    ensures r != [] ==> r[0] == Cell(w.x, w.y)
    decreases seg.Remaining(w)
  {
    RemainingZeroIsEnd(seg, w);
    if seg.AtEnd(w) then []
    else
      AdvanceStep(seg, w);
      [Cell(w.x, w.y)] + Trace(seg, seg.Advance(w))
  }

  /** From any reachable state the walk never visits the end point and
      stays inside the bounding box. */
  lemma {:induction false} TraceInBox(seg: Segment, w: Walker)
    requires seg.Inv(w)
    ensures var r := Trace(seg, w);
      && seg.End() !in r
      && (forall k :: 0 <= k < |r| ==> seg.InBox(r[k]))
    decreases seg.Remaining(w)
  {
    RemainingZeroIsEnd(seg, w);
    if !seg.AtEnd(w) {
      AdvanceStep(seg, w);
      var w' := seg.Advance(w);
      TraceInBox(seg, w');
      assert Trace(seg, w) == [Cell(w.x, w.y)] + Trace(seg, w');
    }
  }

  /** From any reachable state each visited point is a distinct
      8-neighbour of the one before, and the end point a distinct
      8-neighbour of the last. */
  lemma {:induction false} TraceSteps(seg: Segment, w: Walker)
    requires seg.Inv(w)
    ensures var r := Trace(seg, w);
      && (forall i, j :: 0 <= i && j == i + 1 && j < |r| ==> seg.Neighbour(r[i], r[j]))
      && (r != [] ==> seg.Neighbour(r[|r| - 1], seg.End()))
    decreases seg.Remaining(w)
  {
    RemainingZeroIsEnd(seg, w);
    if !seg.AtEnd(w) {
      AdvanceStep(seg, w);
      var w' := seg.Advance(w);
      TraceSteps(seg, w');
      var rest := Trace(seg, w');
      var r := Trace(seg, w);
      assert r == [Cell(w.x, w.y)] + rest;
      if rest == [] {
        assert seg.AtEnd(w');
      } else {
        assert r[1] == rest[0];
      }
      forall i, j | 0 <= i && j == i + 1 && j < |r|
        ensures seg.Neighbour(r[i], r[j])
      {
        if i > 0 {
          assert r[i] == rest[i - 1] && r[j] == rest[j - 1];
        }
      }
    }
  }

  lemma TraceUnfold(seg: Segment, w: Walker)
    requires seg.Inv(w) && !seg.AtEnd(w)
    ensures seg.Inv(seg.Advance(w))
    ensures Trace(seg, w) == [Cell(w.x, w.y)] + Trace(seg, seg.Advance(w))
  {
    AdvanceStep(seg, w);
  }

  /** The full walk of Bresenham(startX, startY, endX, endY). */
  function Line(seg: Segment): (r: seq<Cell>)
    ensures |r| == seg.Steps()
    ensures r != [] ==> r[0] == Cell(seg.startX, seg.startY)
  {
    StartInv(seg);
    Trace(seg, seg.Start())
  }

  lemma StartInv(seg: Segment)
    ensures seg.Inv(seg.Start())
  {
    assert StepInv(0, 0, seg.Dx() - seg.Dy(), seg.Dx(), seg.Dy());
  }

  /** The walk visits exactly max(|endX - startX|, |endY - startY|) points;
      in particular none at all when the start is the end. */
  lemma LineLength(seg: Segment)
    ensures |Line(seg)| == seg.Steps()
    ensures Line(seg) == [] <==> (seg.startX == seg.endX && seg.startY == seg.endY)
  {
    StartInv(seg);
  }

  /** The first point visited is the start point. */
  lemma LineStartsAtStart(seg: Segment)
    requires seg.startX != seg.endX || seg.startY != seg.endY
    ensures Line(seg) != [] && Line(seg)[0] == Cell(seg.startX, seg.startY)
  {
    LineLength(seg);
  }

  /** The end point is never visited: the loop test comes before the
      callback. */
  lemma LineExcludesEnd(seg: Segment)
    ensures seg.End() !in Line(seg)
  {
    StartInv(seg);
    TraceInBox(seg, seg.Start());
  }

  /** Every visited point lies in the bounding box of the two end points; an
      axis with no extent is never stepped along, although its step
      direction defaults to -1. */
  lemma LineInBox(seg: Segment)
    ensures forall k :: 0 <= k < |Line(seg)| ==> seg.InBox(Line(seg)[k])
    ensures seg.Dx() == 0 ==> forall k :: 0 <= k < |Line(seg)| ==> Line(seg)[k].x == seg.startX
    ensures seg.Dy() == 0 ==> forall k :: 0 <= k < |Line(seg)| ==> Line(seg)[k].y == seg.startY
  {
    StartInv(seg);
    TraceInBox(seg, seg.Start());
  }

  /** Consecutive points are distinct 8-neighbours, each coordinate moving by
      0 or by its step direction, and the end point follows the last
      visited point in the same way: the walk leaves no gap. */
  lemma LineSteps(seg: Segment)
    ensures forall i, j :: 0 <= i && j == i + 1 && j < |Line(seg)| ==> seg.Neighbour(Line(seg)[i], Line(seg)[j])
    ensures Line(seg) != [] ==> seg.Neighbour(Line(seg)[|Line(seg)| - 1], seg.End())
  {
    StartInv(seg);
    TraceSteps(seg, seg.Start());
  }

  /** A horizontal walk towards larger x visits the n cells from the
      start one by one and stops one short of its end point. */
  lemma HorizontalLine(x: int, y: int, n: nat)
    ensures Line(Segment(x, y, x + n, y)) == seq(n, i => Cell(x + i, y))
  {
    assert Segment(x, y, x + n, y).Start() == Walker(x, y, n);
    HorizontalTrace(x, y, n, 0);
  }

  /** The horizontal walk from its k-th cell on: the error term never
      changes and only x steps. */
  lemma {:induction false} HorizontalTrace(x: int, y: int, n: nat, k: nat)
    requires k <= n
    ensures Segment(x, y, x + n, y).Inv(Walker(x + k, y, n))
    ensures Trace(Segment(x, y, x + n, y), Walker(x + k, y, n)) == seq(n - k, i => Cell(x + k + i, y))
    decreases n - k
  {
    var seg := Segment(x, y, x + n, y);
    var w := Walker(x + k, y, n);
    assert seg.ProgressX(w) == k && seg.ProgressY(w) == 0;
    assert StepInv(k, 0, n, n, 0);
    if k < n {
      assert seg.Advance(w) == Walker(x + k + 1, y, n);
      HorizontalTrace(x, y, n, k + 1);
      TraceUnfold(seg, w);
      var rest := seq(n - (k + 1), i => Cell(x + (k + 1) + i, y));
      assert [Cell(x + k, y)] + rest == seq(n - k, i => Cell(x + k + i, y));
    } else {
      assert seg.AtEnd(w);
    }
  }

  lemma AppendShift(pre: seq<Cell>, c: Cell, rest: seq<Cell>)
    ensures pre + ([c] + rest) == (pre + [c]) + rest
  {
  }

  /** The body of the loop after the callback, on the loop's own variables:
      the step that Segment.Advance describes. */
  method Step(x0: int, y0: int, err: int, dx: int, dy: int, sx: int, sy: int, ghost seg: Segment)
    returns (x: int, y: int, e: int)
    requires dx == seg.Dx() && dy == seg.Dy() && sx == seg.Sx() && sy == seg.Sy()
    ensures Walker(x, y, e) == seg.Advance(Walker(x0, y0, err))
  {
    x, y, e := x0, y0, err;
    var e2 := 2 * e;
    if e2 > -dy {
      e := e - dy;
      x := x + sx;
    }
    if e2 < dx {
      e := e + dx;
      y := y + sy;
    }
  }

  /** Bresenham: the all-octant integer loop, returning the points it would
      pass to the callback. */
  method Bresenham(startX: int, startY: int, endX: int, endY: int) returns (pts: seq<Cell>)
    ensures pts == Line(Segment(startX, startY, endX, endY))
  {
    var dx := Abs(endX - startX);
    var dy := Abs(endY - startY);

    var sx, sy;
    if startX < endX {
      sx := 1;
    } else {
      sx := -1;
    }
    if startY < endY {
      sy := 1;
    } else {
      sy := -1;
    }

    var err := dx - dy;
    var x0, y0 := startX, startY;
    var x1, y1 := endX, endY;
    ghost var seg := Segment(startX, startY, endX, endY);
    pts := [];

    ghost var w := seg.Start();
    StartInv(seg);
    while x0 != x1 || y0 != y1
      invariant dx == seg.Dx() && dy == seg.Dy() && sx == seg.Sx() && sy == seg.Sy()
      invariant x1 == endX && y1 == endY
      invariant w == Walker(x0, y0, err)
      invariant seg.Inv(w)
      invariant pts + Trace(seg, w) == Line(seg)
      decreases seg.Remaining(w)
    {
      ghost var next := seg.Advance(w);
      TraceUnfold(seg, w);
      AdvanceStep(seg, w);
      AppendShift(pts, Cell(x0, y0), Trace(seg, next));
      pts := pts + [Cell(x0, y0)];
      x0, y0, err := Step(x0, y0, err, dx, dy, sx, sy, seg);
      w := next;
    }
    RemainingZeroIsEnd(seg, w);
  }
}
