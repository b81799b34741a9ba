/**
 * The all-octant integer form of Bresenham's line algorithm (`get_line_points`).
 *
 * The loop of the source is executed by `GetLinePoints`; the same loop, one
 * iteration at a time, is the recursive specification function `Trace`, whose
 * state is the loop state `Cursor(x, y, err)`.
 */
module Bresenham {

  /** A grid point, in the source's (x, y) = (column, row) order. */
  datatype Point = Point(x: int, y: int)

  function Abs(n: int): int { if n < 0 then -n else n }

  function Max(a: int, b: int): int { if a < b then b else a }

  /** `v` lies between the two ends `e` and `f`, inclusive, in either order. */
  predicate Between(v: int, e: int, f: int) {
    if e <= f then e <= v <= f else f <= v <= e
  }

  /**
   * The two endpoints of one call and the constants the source derives from
   * them before its loop: dx, dy, sx, sy.
   */
  datatype Segment = Segment(x0: int, y0: int, x1: int, y1: int) {
    function Dx(): int { Abs(x1 - x0) }
    function Dy(): int { Abs(y1 - y0) }
    function Sx(): int { if x0 < x1 then 1 else -1 }
    function Sy(): int { if y0 < y1 then 1 else -1 }

    /** The number of steps of size sx that lead from x0 to x. */
    function Along(x: int): int { if x0 < x1 then x - x0 else x0 - x }

    /** The number of steps of size sy that lead from y0 to y. */
    function Across(y: int): int { if y0 < y1 then y - y0 else y0 - y }

    /** x moves mostly (or as much as y): every loop step moves x. */
    predicate XMajor() { Dx() >= Dy() }

    /** y moves mostly (or as much as x): every loop step moves y. */
    predicate YMajor() { Dy() >= Dx() }

    /**
     * What one step of the loop may do to a point: x moves by sx or stays,
     * y moves by sy or stays, and the point does not stay where it is; along
     * the major axis it always moves.
     */
    predicate Move(p: Point, q: Point) {
      (q.x == p.x || q.x == p.x + Sx()) &&
      (q.y == p.y || q.y == p.y + Sy()) &&
      p != q &&
      (XMajor() ==> q.x == p.x + Sx()) &&
      (YMajor() ==> q.y == p.y + Sy())
    }
  }

  /** The variables the source's loop updates: x0, y0 (here x, y) and err. */
  datatype Cursor = Cursor(x: int, y: int, err: int)

  /** The loop state before the first iteration. */
  function Start(s: Segment): Cursor {
    Cursor(s.x0, s.y0, s.Dx() - s.Dy())
  }

  /** The loop condition `x0 != x1 or y0 != y1` is false. */
  predicate AtEnd(s: Segment, c: Cursor) {
    c.x == s.x1 && c.y == s.y1
  }

  /** One iteration of the loop body, after the point has been appended. */
  function Step(s: Segment, c: Cursor): Cursor {
    var e2 := 2 * c.err;
    var stepX, stepY := e2 > -s.Dy(), e2 < s.Dx();
    Cursor(if stepX then c.x + s.Sx() else c.x,
           if stepY then c.y + s.Sy() else c.y,
           c.err - (if stepX then s.Dy() else 0) + (if stepY then s.Dx() else 0))
  }

  /**
   * The invariant of the loop. With a steps taken along x and b along y, the
   * error term is (b + 1) * dx - (a + 1) * dy (`Mul` keeps this linear for
   * the solver), neither coordinate has passed
   * its end, and the error term keeps the major axis moving.
   */
  predicate Reachable(s: Segment, c: Cursor) {
    var a, b, dx, dy := s.Along(c.x), s.Across(c.y), s.Dx(), s.Dy();
    0 <= a <= dx && 0 <= b <= dy &&
    c.err == Mul(b + 1, dx) - Mul(a + 1, dy) &&
    (dx >= dy && dx > 0 ==> 2 * c.err > -dy) &&
    (dy >= dx && dy > 0 ==> 2 * c.err < dx) &&
    (dx == dy ==> c.err == 0)
  }

  /** What is left to walk; the loop's termination measure. */
  function Remaining(s: Segment, c: Cursor): int {
    (s.Dx() - s.Along(c.x)) + (s.Dy() - s.Across(c.y))
  }

  /** k * d as repeated addition. */
  function Mul(k: nat, d: int): int {
    if k == 0 then 0 else Mul(k - 1, d) + d
  }

  lemma {:induction false} MulIsProduct(k: nat, d: int)
    ensures Mul(k, d) == k * d
  {
    if k > 0 {
      MulIsProduct(k - 1, d);
    }
  }

  lemma StartReachable(s: Segment)
    ensures Reachable(s, Start(s))
  {
    assert Mul(1, s.Dx()) == s.Dx() && Mul(1, s.Dy()) == s.Dy();
  }

  lemma MulLeft(k: int, p: int, q: int)
    requires k >= 0 && p <= q
    ensures k * p <= k * q
  {
    assert k * q - k * p == k * (q - p);
  }

  /**
   * The arithmetic of one iteration, on the steps a and b taken so far:
   * an x step happens only while a < dx, a y step only while b < dy, at least
   * one of them happens, and the error term keeps its relation and bounds.
   */
  lemma ErrorStep(a: int, b: int, dx: int, dy: int, err: int)
    requires 0 <= a <= dx && 0 <= b <= dy && !(a == dx && b == dy)
    requires err == Mul(b + 1, dx) - Mul(a + 1, dy)
    requires dx >= dy && dx > 0 ==> 2 * err > -dy
    requires dy >= dx && dy > 0 ==> 2 * err < dx
    requires dx == dy ==> err == 0
    ensures 2 * err > -dy ==> a < dx
    ensures 2 * err < dx ==> b < dy
    ensures 2 * err > -dy || 2 * err < dx
    ensures dx >= dy ==> 2 * err > -dy
    ensures dy >= dx ==> 2 * err < dx
    ensures var (a', err1) := if 2 * err > -dy then (a + 1, err - dy) else (a, err);
      var (b', err2) := if 2 * err < dx then (b + 1, err1 + dx) else (b, err1);
      err2 == Mul(b' + 1, dx) - Mul(a' + 1, dy) &&
      (dx >= dy && dx > 0 ==> 2 * err2 > -dy) &&
      (dy >= dx && dy > 0 ==> 2 * err2 < dx) &&
      (dx == dy ==> err2 == 0)
  {
    var xs, ys := 2 * err > -dy, 2 * err < dx;
    if a == dx {
      NoStepPast(b, dy, a, dx, err);
    }
    if b == dy {
      NoStepPast'(a, dx, b, dy, err);
    }
    var a', err1 := if xs then a + 1 else a, if xs then err - dy else err;
    var b', err2 := if ys then b + 1 else b, if ys then err1 + dx else err1;
    assert err1 == Mul(b + 1, dx) - Mul(a' + 1, dy);
    assert err2 == Mul(b' + 1, dx) - Mul(a' + 1, dy);
  }

  /** At a == dx, with y still short of y1, the error term forbids an x step. */
  lemma NoStepPast(b: int, dy: int, a: int, dx: int, err: int)
    requires 0 <= b < dy && a == dx >= 0
    requires err == Mul(b + 1, dx) - Mul(a + 1, dy)
    ensures 2 * err <= -dy
  {
    MulIsProduct(b + 1, dx);
    MulIsProduct(a + 1, dy);
    MulLeft(dx, b + 1, dy);
    assert (a + 1) * dy == dx * dy + dy;
  }

  /** At b == dy, with x still short of x1, the error term forbids a y step. */
  lemma NoStepPast'(a: int, dx: int, b: int, dy: int, err: int)
    requires 0 <= a < dx && b == dy >= 0
    requires err == Mul(b + 1, dx) - Mul(a + 1, dy)
    ensures 2 * err >= dx
  {
    MulIsProduct(b + 1, dx);
    MulIsProduct(a + 1, dy);
    MulLeft(dy, a + 1, dx);
    assert (b + 1) * dx == dy * dx + dx;
  }

  /**
   * One iteration keeps the invariant, brings the cursor strictly closer to
   * the end, and moves the current point as `Move` allows.
   */
  lemma StepReachable(s: Segment, c: Cursor)
    requires Reachable(s, c) && !AtEnd(s, c)
    ensures Reachable(s, Step(s, c))
    ensures 0 <= Remaining(s, Step(s, c)) < Remaining(s, c)
    ensures s.Move(Point(c.x, c.y), Point(Step(s, c).x, Step(s, c).y))
    ensures s.XMajor() ==> s.Along(Step(s, c).x) == s.Along(c.x) + 1
    ensures s.YMajor() ==> s.Across(Step(s, c).y) == s.Across(c.y) + 1
  {
    var a, b := s.Along(c.x), s.Across(c.y);
    assert a == s.Dx() ==> c.x == s.x1;
    assert b == s.Dy() ==> c.y == s.y1;
    ErrorStep(a, b, s.Dx(), s.Dy(), c.err);
  }

  /**
   * The points the loop appends from cursor `c` on, followed by the final
   * `(x1, y1)`: the loop of `get_line_points` unrolled.
   */
  function Trace(s: Segment, c: Cursor): seq<Point>
    requires Reachable(s, c)
    decreases Remaining(s, c)
  {
    if AtEnd(s, c) then
      [Point(s.x1, s.y1)]
    else
      StepReachable(s, c);
      [Point(c.x, c.y)] + Trace(s, Step(s, c))
  }

  /** A trace starts at the cursor and ends at (x1, y1). */
  lemma {:induction false} TraceEnds(s: Segment, c: Cursor)
    requires Reachable(s, c)
    decreases Remaining(s, c)
    ensures |Trace(s, c)| >= 1
    ensures Trace(s, c)[0] == Point(c.x, c.y)
    ensures Trace(s, c)[|Trace(s, c)| - 1] == Point(s.x1, s.y1)
  {
    if !AtEnd(s, c) {
      StepReachable(s, c);
      TraceEnds(s, Step(s, c));
    }
  }

  /**
   * Every loop step moves the major axis, so the number of points left is
   * the distance left along that axis, plus one.
   */
  lemma {:induction false} TraceLength(s: Segment, c: Cursor)
    requires Reachable(s, c)
    decreases Remaining(s, c)
    ensures s.XMajor() ==> |Trace(s, c)| == s.Dx() - s.Along(c.x) + 1
    ensures s.YMajor() ==> |Trace(s, c)| == s.Dy() - s.Across(c.y) + 1
  {
    if !AtEnd(s, c) {
      StepReachable(s, c);
      TraceLength(s, Step(s, c));
    } else {
      assert s.Along(c.x) == s.Dx() && s.Across(c.y) == s.Dy();
    }
  }

  /**
   * One loop iteration: if `done` followed by the points from `c` is the
   * whole line, so is `done` with the current point appended, followed by
   * the points from the next state.
   */
  lemma TraceAdvance(s: Segment, c: Cursor, done: seq<Point>, whole: seq<Point>)
    requires Reachable(s, c) && !AtEnd(s, c) && done + Trace(s, c) == whole
    ensures Reachable(s, Step(s, c)) && 0 <= Remaining(s, Step(s, c)) < Remaining(s, c)
    ensures (done + [Point(c.x, c.y)]) + Trace(s, Step(s, c)) == whole
  {
    StepReachable(s, c);
    assert Trace(s, c) == [Point(c.x, c.y)] + Trace(s, Step(s, c));
  }

  /** The list `get_line_points(x0, y0, x1, y1)` returns. */
  function LinePoints(x0: int, y0: int, x1: int, y1: int): (r: seq<Point>)
    ensures |r| == Max(Abs(x1 - x0), Abs(y1 - y0)) + 1
    ensures r[0] == Point(x0, y0) && r[|r| - 1] == Point(x1, y1)
    ensures x0 == x1 && y0 == y1 ==> r == [Point(x0, y0)]
  {
    var s := Segment(x0, y0, x1, y1);
    StartReachable(s);
    TraceEnds(s, Start(s));
    TraceLength(s, Start(s));
    Trace(s, Start(s))
  }

  /** Consecutive points of a trace are one loop step apart. */
  lemma {:induction false} TraceMoves(s: Segment, c: Cursor)
    requires Reachable(s, c)
    decreases Remaining(s, c)
    ensures forall i :: 0 <= i < |Trace(s, c)| - 1 ==> s.Move(Trace(s, c)[i], Trace(s, c)[i + 1])
  {
    if !AtEnd(s, c) {
      StepReachable(s, c);
      var n := Step(s, c);
      TraceMoves(s, n);
      var r, t := Trace(s, c), Trace(s, n);
      assert r == [Point(c.x, c.y)] + t;
      forall i | 0 <= i < |r| - 1
        ensures s.Move(r[i], r[i + 1])
      {
        if i > 0 {
          assert r[i] == t[i - 1] && r[i + 1] == t[i];
        }
      }
    }
  }

  /** Every point of a trace lies between the cursor and the end, on both axes. */
  lemma {:induction false} TraceInBox(s: Segment, c: Cursor)
    requires Reachable(s, c)
    decreases Remaining(s, c)
    ensures forall p :: p in Trace(s, c) ==> Between(p.x, c.x, s.x1) && Between(p.y, c.y, s.y1)
  {
    if !AtEnd(s, c) {
      StepReachable(s, c);
      var n := Step(s, c);
      TraceInBox(s, n);
      assert Trace(s, c) == [Point(c.x, c.y)] + Trace(s, n);
    }
  }

  /**
   * The line has no gaps: consecutive points differ by at most 1 in each
   * coordinate and are never equal; x moves only by sx (towards x1), y only
   * by sy (towards y1), and the major axis moves at every step.
   */
  lemma LineConnected(x0: int, y0: int, x1: int, y1: int)
    ensures var r, s := LinePoints(x0, y0, x1, y1), Segment(x0, y0, x1, y1);
      forall i :: 0 <= i < |r| - 1 ==>
        s.Move(r[i], r[i + 1]) &&
        Abs(r[i + 1].x - r[i].x) <= 1 && Abs(r[i + 1].y - r[i].y) <= 1 && r[i] != r[i + 1]
  {
    var s := Segment(x0, y0, x1, y1);
    StartReachable(s);
    TraceMoves(s, Start(s));
  }

  /** Every point of the line lies in the bounding box of its endpoints. */
  lemma LineInBox(x0: int, y0: int, x1: int, y1: int)
    ensures forall p :: p in LinePoints(x0, y0, x1, y1) ==> Between(p.x, x0, x1) && Between(p.y, y0, y1)
  {
    var s := Segment(x0, y0, x1, y1);
    StartReachable(s);
    TraceInBox(s, Start(s));
  }

  /** A path whose y changes by at most 1 per step visits every row between its ends. */
  lemma {:induction false} PathCrossesRow(r: seq<Point>, y: int)
    requires |r| > 0
    requires forall i :: 0 <= i < |r| - 1 ==> Abs(r[i + 1].y - r[i].y) <= 1
    requires Between(y, r[0].y, r[|r| - 1].y)
    ensures exists p :: p in r && p.y == y
    decreases |r|
  {
    if r[0].y != y {
      var t := r[1..];
      assert Abs(r[1].y - r[0].y) <= 1;
      PathCrossesRow(t, y);
      var p :| p in t && p.y == y;
      assert p in r;
    }
  }

  /** The line passes through every row between its endpoints' rows. */
  lemma LineCrossesRow(x0: int, y0: int, x1: int, y1: int, y: int)
    requires Between(y, y0, y1)
    ensures exists p :: p in LinePoints(x0, y0, x1, y1) && p.y == y
  {
    LineConnected(x0, y0, x1, y1);
    PathCrossesRow(LinePoints(x0, y0, x1, y1), y);
  }

  /** `get_line_points`: the source's loop, returning the list it builds. */
  method GetLinePoints(x0: int, y0: int, x1: int, y1: int) returns (points: seq<Point>)
    ensures points == LinePoints(x0, y0, x1, y1)
  {
    ghost var s := Segment(x0, y0, x1, y1);
    points := [];
    var dx := Abs(x1 - x0);
    var dy := Abs(y1 - y0);
    var sx := if x0 < x1 then 1 else -1;
    var sy := if y0 < y1 then 1 else -1;
    var err := dx - dy;
    var x, y := x0, y0;
    ghost var c := Start(s);
    StartReachable(s);
    ghost var whole := Trace(s, c);
    while x != x1 || y != y1
      invariant dx == s.Dx() && dy == s.Dy() && sx == s.Sx() && sy == s.Sy()
      invariant c == Cursor(x, y, err) && Reachable(s, c)
      invariant points + Trace(s, c) == whole
      decreases Remaining(s, c)
    {
      ghost var n := Step(s, c);
      TraceAdvance(s, c, points, whole);
      var e2 := 2 * err;
      points := points + [Point(x, y)];
      if e2 > -dy {
        err := err - dy;
        x := x + sx;
      }
      if e2 < dx {
        err := err + dx;
        y := y + sy;
      }
      assert Cursor(x, y, err) == n;
      c := n;
    }
    points := points + [Point(x1, y1)];
    assert whole == LinePoints(x0, y0, x1, y1);
  }

  /** Two sample lines: a horizontal one and a steep one. */
  lemma LineExamples()
    ensures LinePoints(0, 0, 5, 0) == [Point(0, 0), Point(1, 0), Point(2, 0), Point(3, 0), Point(4, 0), Point(5, 0)]
    ensures |LinePoints(0, 0, 3, 4)| == 5
  {
  }
}
