/** The line drawing loop: termination, endpoints and accuracy. */
module Bresenham {

  datatype Point = Point(x: int, y: int)

  function Abs(v: int): (r: int)
    ensures r >= 0
  {
    if v < 0 then -v else v
  }

  function Max(a: int, b: int): int { if a < b then b else a }

  /** Twice the area spanned by the point and the line's ends; zero exactly on the line. Divided by the longer
      extent of the line it is the distance along the shorter one. */
  function Cross(p: Point, a: Point, b: Point): int {
    (p.y - a.y) * (b.x - a.x) - (p.x - a.x) * (b.y - a.y)
  }

  /** `n` steps from `from` towards `to`. */
  function Towards(from: int, to: int, n: int): int { if from < to then from + n else from - n }

  /** How far off the line `i` steps along x and `j` along y lead, scaled by the extents. */
  function Off(dx: int, dy: int, i: int, j: int): int { j * dx - i * dy }

  predicate Near(dx: int, dy: int, off: int) { -Max(dx, dy) <= 2 * off <= Max(dx, dy) }

  /** Extents, and steps that do not overshoot. */
  predicate Within(dx: int, dy: int, i: int, j: int) { 0 <= i <= dx && 0 <= j <= dy }

  lemma OffSteps(dx: int, dy: int, i: int, j: int)
    ensures Off(dx, dy, i + 1, j) == Off(dx, dy, i, j) - dy
    ensures Off(dx, dy, i, j + 1) == Off(dx, dy, i, j) + dx
    ensures Off(dx, dy, i + 1, j + 1) == Off(dx, dy, i, j) + dx - dy
    ensures Off(dx, dy, 0, 0) == 0
  {
  }

  lemma Grows(q: int, d: int)
    requires d >= 0
    ensures q >= 1 ==> q * d >= d
    ensures q <= -1 ==> q * d <= -d
  {
    if q >= 1 {
      assert (q - 1) * d >= 0;
    } else if q <= -1 {
      assert (-q - 1) * d >= 0;
    }
  }

  /** At the right edge, and beyond the upper one: where the remaining steps show in the offset. */
  lemma Edges(dx: int, dy: int, i: int, j: int)
    requires Within(dx, dy, i, j)
    ensures i == dx && j < dy ==> Off(dx, dy, i, j) <= -dx
    ensures j == dy && i < dx ==> Off(dx, dy, i, j) >= dy
    ensures dx == dy && i < j ==> Off(dx, dy, i, j) >= dx
    ensures dx == dy && i > j ==> Off(dx, dy, i, j) <= -dx
    ensures dx == dy && i == j ==> Off(dx, dy, i, j) == 0
  {
    Grows(j - dy, dx);
    Grows(dx - i, dy);
    Grows(j - i, dx);
    assert j * dx - dx * dy == (j - dy) * dx;
    assert dy * dx - i * dy == (dx - i) * dy;
    assert j * dx - i * dx == (j - i) * dx;
  }

  /** One round on a line at least as wide as high: x always advances, y exactly when that stays near. */
  lemma WideStep(dx: int, dy: int, i: int, j: int)
    requires dx >= dy && Within(dx, dy, i, j) && !(i == dx && j == dy) && Near(dx, dy, Off(dx, dy, i, j))
    ensures i < dx && 2 * (Off(dx, dy, i, j) + dx - dy) > -dy
    ensures if 2 * (Off(dx, dy, i, j) + dx - dy) < dx then j < dy && Near(dx, dy, Off(dx, dy, i + 1, j + 1))
            else Near(dx, dy, Off(dx, dy, i + 1, j))
  {
    hide Off;
    OffSteps(dx, dy, i, j);
    Edges(dx, dy, i, j);
  }

  /** One round on a line higher than wide. */
  lemma HighStep(dx: int, dy: int, i: int, j: int)
    requires dx < dy && Within(dx, dy, i, j) && !(i == dx && j == dy) && Near(dx, dy, Off(dx, dy, i, j))
    ensures j < dy && 2 * (Off(dx, dy, i, j) + dx - dy) < dx
    ensures if 2 * (Off(dx, dy, i, j) + dx - dy) > -dy then i < dx && Near(dx, dy, Off(dx, dy, i + 1, j + 1))
            else Near(dx, dy, Off(dx, dy, i, j + 1))
  {
    hide Off;
    OffSteps(dx, dy, i, j);
    Edges(dx, dy, i, j);
  }

  /** The cross product in terms of steps. */
  lemma CrossOfSteps(a: Point, b: Point, i: int, j: int)
    ensures Abs(Cross(Point(Towards(a.x, b.x, i), Towards(a.y, b.y, j)), a, b))
         == Abs(Off(Abs(b.x - a.x), Abs(b.y - a.y), i, j))
  {
    var dx: int, dy: int := b.x - a.x, b.y - a.y;
    if dx > 0 && dy > 0 {
    } else if dx > 0 {
      assert (-j) * dx - i * dy == -(j * dx - i * (-dy));
    } else if dy > 0 {
      assert j * dx - (-i) * dy == -(j * (-dx) - i * dy);
    } else {
      assert (-j) * dx - (-i) * dy == j * (-dx) - i * (-dy);
    }
  }

  /** The `k`-th point: `k` steps along the longer axis, at most half a pixel off along the shorter one. */
  predicate OnTrack(p: Point, k: int, a: Point, b: Point) {
    var dx, dy := Abs(b.x - a.x), Abs(b.y - a.y);
    && (if dx >= dy then p.x == Towards(a.x, b.x, k) else p.y == Towards(a.y, b.y, k))
    && 2 * Abs(Cross(p, a, b)) <= Max(dx, dy)
  }

  lemma StaysOnTrack(a: Point, b: Point, i: int, j: int)
    requires Near(Abs(b.x - a.x), Abs(b.y - a.y), Off(Abs(b.x - a.x), Abs(b.y - a.y), i, j))
    ensures OnTrack(Point(Towards(a.x, b.x, i), Towards(a.y, b.y, j)), if Abs(b.x - a.x) >= Abs(b.y - a.y) then i else j, a, b)
  {
    hide Off, Cross;
    CrossOfSteps(a, b, i, j);
  }

  /** The points handed to `put_pixel`, in order: exactly as many as the longer extent asks for, one step of the
      longer axis each, from end to end, and never more than half a pixel off along the shorter axis. */
  method DrawLine(x0: int, y0: int, x1: int, y1: int) returns (points: seq<Point>)
    ensures var dx, dy := Abs(x1 - x0), Abs(y1 - y0);
            && |points| == Max(dx, dy) + 1
            && points[0] == Point(x0, y0) && points[|points| - 1] == Point(x1, y1)
            && forall k | 0 <= k < |points| :: OnTrack(points[k], k, Point(x0, y0), Point(x1, y1))
  {
    var dx, dy := Abs(x1 - x0), Abs(y1 - y0);
    var sx: int, sy: int := if x0 < x1 then 1 else -1, if y0 < y1 then 1 else -1;
    var err, cx, cy := dx - dy, x0, y0;
    points := [];
    ghost var i: int, j: int := 0, 0;
    ghost var a, b := Point(x0, y0), Point(x1, y1);
    hide Off, OnTrack;
    OffSteps(dx, dy, 0, 0);
    while true
      invariant Within(dx, dy, i, j) && Near(dx, dy, Off(dx, dy, i, j))
      invariant cx == Towards(x0, x1, i) && cy == Towards(y0, y1, j) && err == Off(dx, dy, i, j) + dx - dy
      invariant |points| == if dx >= dy then i else j
      invariant if |points| > 0 then points[0] == a else cx == x0 && cy == y0
      invariant forall k | 0 <= k < |points| ::
                  OnTrack(points[k], k, a, b)
      decreases Max(dx, dy) - |points|
    {
      StaysOnTrack(a, b, i, j);
      points := points + [Point(cx, cy)];
      if cx == x1 && cy == y1 {
        return;
      }
      OffSteps(dx, dy, i, j);
      if dx >= dy {
        WideStep(dx, dy, i, j);
      } else {
        HighStep(dx, dy, i, j);
      }
      var e2 := 2 * err;
      if e2 > -dy {
        err, cx, i := err - dy, cx + sx, i + 1;
      }
      if e2 < dx {
        err, cy, j := err + dx, cy + sy, j + 1;
      }
    }
  }
}
