/** Helpers shared by the controller and the rest of the model (src/util.ts),
    plus the plain value types that stand in for THREE.Vector2. */
module Util {

  /** A point in screen (world) space: both axes run over [-50, 50] on screen. */
  datatype Vec2 = Vec2(x: real, y: real)

  /** An integer grid coordinate, as produced by the cell mappings and by the
      line rasteriser. */
  datatype Cell = Cell(x: int, y: int)

  /** An HSL triple; the source returns it as the array [h, s, l]. */
  datatype Hsl = Hsl(h: real, s: real, l: real)

  function Min(a: int, b: int): int { if a <= b then a else b }
  function Max(a: int, b: int): int { if a >= b then a else b }

  /** THREE.MathUtils.clamp on integers: Math.max(lo, Math.min(hi, v)). */
  function Clamp(v: int, lo: int, hi: int): (r: int)
    ensures lo <= r
    ensures lo <= hi ==> r <= hi
    ensures lo <= v <= hi ==> r == v
    ensures v < lo ==> r == lo
    ensures lo <= hi < v ==> r == hi
  {
    Max(lo, Min(hi, v))
  }

  /** One axis of worldToCellCoords: shift [-50, 50] to [0, 1], scale by
      count - 1, floor, and clamp into [0, count - 1]. */
  function CellIndex(coord: real, count: int): (k: int)
    ensures 0 <= k
    ensures count >= 1 ==> k <= count - 1
  {
    var unit := (coord + 50.0) / 100.0;
    Clamp((unit * (count - 1) as real).Floor, 0, count - 1)
  }

  /** worldToCellCoords: maps a screen position to the cell the solver
      indexes, clamped to the grid on both axes. */
  function WorldToCellCoords(countX: int, countY: int, v: Vec2): (c: Cell)
    ensures 0 <= c.x && (countX >= 1 ==> c.x <= countX - 1)
    ensures 0 <= c.y && (countY >= 1 ==> c.y <= countY - 1)
  {
    Cell(CellIndex(v.x, countX), CellIndex(v.y, countY))
  }

  /** The left/top edge of the screen maps to cell 0 and the right/bottom
      edge to the last cell. */
  lemma CellIndexAtEdges(count: int)
    requires count >= 1
    ensures CellIndex(-50.0, count) == 0
    ensures CellIndex(50.0, count) == count - 1
  {
    assert (-50.0 + 50.0) / 100.0 == 0.0;
    assert (50.0 + 50.0) / 100.0 == 1.0;
    assert (0.0 * (count - 1) as real).Floor == 0;
    assert (1.0 * (count - 1) as real).Floor == count - 1;
  }

  lemma WorldToCellCoordsAtCorners(countX: int, countY: int)
    requires countX >= 1 && countY >= 1
    ensures WorldToCellCoords(countX, countY, Vec2(-50.0, -50.0)) == Cell(0, 0)
    ensures WorldToCellCoords(countX, countY, Vec2(50.0, 50.0)) == Cell(countX - 1, countY - 1)
  {
    CellIndexAtEdges(countX);
    CellIndexAtEdges(countY);
  }

  /** The mapping never reorders positions: a point further right (down)
      lands in a cell that is not further left (up). */
  lemma CellIndexMonotone(a: real, b: real, count: int)
    requires a <= b && count >= 1
    ensures CellIndex(a, count) <= CellIndex(b, count)
  {
    var ua, ub := (a + 50.0) / 100.0, (b + 50.0) / 100.0;
    var n := (count - 1) as real;
    assert ua <= ub;
    assert ua * n <= ub * n by {
      assert (ub - ua) * n >= 0.0;
      assert ub * n - ua * n == (ub - ua) * n;
    }
    FloorMonotone(ua * n, ub * n);
  }

  lemma FloorMonotone(p: real, q: real)
    requires p <= q
    ensures p.Floor <= q.Floor
  {
    assert p.Floor as real <= p;
    assert q < (q.Floor + 1) as real;
  }

  /** hsvToHsl; both colour models have their components in [0, 1]. The
      two divisions are guarded: the l < 0.5 branch is reached only with
      l != 0, the last branch only with l != 1, so no divisor is zero. */
  function HsvToHsl(h: real, s: real, v: real): (r: Hsl)
    ensures r.h == h
    ensures r.l == (2.0 - s) * v / 2.0
    ensures r.l == 0.0 ==> r.s == s
    ensures r.l == 1.0 ==> r.s == 0.0
  {
    var l := (2.0 - s) * v / 2.0;
    var s' :=
      if l != 0.0 then
        if l == 1.0 then 0.0
        else if l < 0.5 then s * v / (l * 2.0)
        else s * v / (2.0 - l * 2.0)
      else s;
    Hsl(h, s', l)
  }

  /** For inputs in [0, 1] the HSL saturation and lightness stay in [0, 1]. */
  lemma HsvToHslInRange(h: real, s: real, v: real)
    requires 0.0 <= s <= 1.0 && 0.0 <= v <= 1.0
    ensures 0.0 <= HsvToHsl(h, s, v).l <= 1.0
    ensures 0.0 <= HsvToHsl(h, s, v).s <= 1.0
  {
    var l := (2.0 - s) * v / 2.0;
    assert 0.0 <= (2.0 - s) * v <= 2.0 by {
      assert 1.0 <= 2.0 - s <= 2.0;
      assert (2.0 - s) * v <= 2.0 * v;
    }
    if l != 0.0 && l != 1.0 {
      assert s * v >= 0.0;
      if l < 0.5 {
        // s*v <= 2l = (2 - s) v because s <= 1
        assert s * v <= l * 2.0 by {
          assert l * 2.0 == (2.0 - s) * v;
          assert (2.0 - 2.0 * s) * v >= 0.0;
        }
        DivAtMostOne(s * v, l * 2.0);
      } else {
        // s*v <= 2 - 2l = 2 - (2 - s) v because v <= 1
        assert s * v <= 2.0 - l * 2.0 by {
          assert l * 2.0 == 2.0 * v - s * v;
        }
        DivAtMostOne(s * v, 2.0 - l * 2.0);
      }
    }
  }

  lemma DivAtMostOne(a: real, b: real)
    requires 0.0 <= a <= b && b > 0.0
    ensures 0.0 <= a / b <= 1.0
  {
    assert a / b * b == a;
  }

  function MinReal(a: real, b: real): real { if a <= b then a else b }

  /** Inverse direction of the conversion: for inputs in [0, 1] the HSV value
      is recovered from the result as l + s_l * min(l, 1 - l), the standard
      HSL-to-HSV formula. */
  lemma HsvToHslRecoversValue(h: real, s: real, v: real)
    requires 0.0 <= s <= 1.0 && 0.0 <= v <= 1.0
    ensures var r := HsvToHsl(h, s, v); r.l + r.s * MinReal(r.l, 1.0 - r.l) == v
  {
    var r := HsvToHsl(h, s, v);
    var l := r.l;
    assert l * 2.0 == 2.0 * v - s * v;
    if l == 0.0 {
      // (2 - s) v == 0 with 2 - s >= 1 forces v == 0
      assert v == 0.0 by {
        assert (2.0 - s) * v == 0.0 && 2.0 - s > 0.0;
      }
    } else if l == 1.0 {
      // (2 - s) v == 2 with s, v in [0, 1] forces v == 1
      assert v == 1.0 by {
        assert (2.0 - s) * v == 2.0;
        assert (2.0 - s) * v <= 2.0 * v by { assert s * v >= 0.0; }
      }
    } else if l < 0.5 {
      assert MinReal(l, 1.0 - l) == l;
      assert r.s * l == s * v / 2.0 by {
        assert r.s == s * v / (l * 2.0);
        assert r.s * (l * 2.0) == s * v;
      }
    } else {
      assert MinReal(l, 1.0 - l) == 1.0 - l;
      assert r.s * (1.0 - l) == s * v / 2.0 by {
        assert r.s == s * v / (2.0 - l * 2.0);
        assert r.s * (2.0 - l * 2.0) == s * v;
      }
    }
  }
}
