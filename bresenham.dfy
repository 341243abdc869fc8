/**
 * Bresenham's line algorithm as the obstacle placement uses it: the integer error-term walk
 * from (x0, y0) to (x1, y1) that emits every visited grid point.
 *
 * The line is characterised without the loop: it has one point per step along the major axis
 * (x when |y1 - y0| <= |x1 - x0|, y otherwise), and point i lies, along the minor axis, the
 * number of steps from the start nearest to the ideal line through the endpoints, a half
 * rounded towards the start.
 */
module Bresenham {
  import opened Directions

  function Abs(n: int): nat { if n < 0 then -n else n }
  function Min(a: int, b: int): int { if a <= b then a else b }
  function Max(a: int, b: int): int { if a <= b then b else a }

  /** Two distinct points that touch horizontally, vertically or diagonally. */
  predicate Adjacent8(a: Coord, b: Coord) {
    a != b && -1 <= b.x - a.x <= 1 && -1 <= b.y - a.y <= 1
  }

  /** c lies in the bounding box of the two endpoints. */
  predicate InBox(c: Coord, x0: int, y0: int, x1: int, y1: int) {
    Min(x0, x1) <= c.x <= Max(x0, x1) && Min(y0, y1) <= c.y <= Max(y0, y1)
  }

  /** k steps from `from` towards `to`; downwards when from is not below to, as the code's sign is. */
  function Toward(from: int, to: int, k: int): int {
    if from < to then from + k else from - k
  }

  /** How many steps towards `to` the value v lies from `from`; Toward undone. */
  function StepsFrom(from: int, to: int, v: int): int {
    if from < to then v - from else from - v
  }

  /** j is the integer nearest to i * m / M, a half rounded down; 0 when M is 0. */
  predicate Nearest(i: int, j: int, m: int, M: int) {
    if M == 0 then j == 0 else -M < 2 * (i * m - j * M) <= M
  }

  /**
   * p is point i of the line from (x0, y0) to (x1, y1): i steps from the start along the
   * major axis, and along the minor axis the nearest number of steps to the ideal line.
   */
  predicate LinePoint(p: Coord, i: int, x0: int, y0: int, x1: int, y1: int) {
    var dx, dy := Abs(x1 - x0), Abs(y1 - y0);
    if dy <= dx then p.x == Toward(x0, x1, i) && Nearest(i, StepsFrom(y0, y1, p.y), dy, dx)
    else p.y == Toward(y0, y1, i) && Nearest(i, StepsFrom(x0, x1, p.x), dx, dy)
  }

  /** The Bresenham line: one point per step along the major axis, point i being LinePoint i. */
  predicate IsLine(trace: seq<Coord>, x0: int, y0: int, x1: int, y1: int) {
    |trace| == Max(Abs(x1 - x0), Abs(y1 - y0)) + 1 &&
    forall i :: 0 <= i < |trace| ==> LinePoint(trace[i], i, x0, y0, x1, y1)
  }

  // ---------------------------------------------------------------------------------------
  // Integer facts about Nearest.

  /** A multiple of a positive M strictly between -M and 2 * M is 0 or M. */
  lemma MultipleBetween(k: int, M: int)
    requires M > 0 && -M < k * M < 2 * M
    ensures 0 <= k <= 1
  {
  }

  /** A multiple of a positive M above -M is not negative. */
  lemma MultipleAbove(k: int, M: int)
    requires M > 0 && -M < k * M
    ensures 0 <= k
  {
  }

  /** A multiple of a positive M below M is not positive. */
  lemma MultipleBelow(k: int, M: int)
    requires M > 0 && k * M < M
    ensures k <= 0
  {
  }

  /** The nearest integer is unique. */
  lemma NearestUnique(i: int, j: int, j': int, m: int, M: int)
    requires Nearest(i, j, m, M) && Nearest(i, j', m, M)
    ensures j == j'
  {
    if M > 0 {
      assert (j' - j) * M == j' * M - j * M;
      assert (j - j') * M == j * M - j' * M;
      MultipleBetween(j' - j, M);
      MultipleBetween(j - j', M);
    }
  }

  /** The ideal line runs through both endpoints: offset 0 at step 0 and m at step M. */
  lemma NearestEnds(m: int, M: int)
    requires 0 <= m <= M
    ensures Nearest(0, 0, m, M) && Nearest(M, m, m, M)
  {
  }

  /** Between the endpoints the nearest offset stays between 0 and m. */
  lemma NearestBounds(i: int, j: int, m: int, M: int)
    requires 0 <= i <= M && 0 <= m <= M && Nearest(i, j, m, M)
    ensures 0 <= j <= m
  {
    if M > 0 {
      var P, Q, R := i * m, j * M, m * M;
      assert 0 <= P <= R by {
        assert (M - i) * m >= 0 && (M - i) * m == R - P;
      }
      MultipleAbove(j, M);
      assert (j - m) * M == Q - R;
      MultipleBelow(j - m, M);
    }
  }

  /** One step further along the major axis moves the nearest offset by 0 or 1. */
  lemma NearestStep(i: int, j: int, j': int, m: int, M: int)
    requires 0 <= m <= M && Nearest(i, j, m, M) && Nearest(i + 1, j', m, M)
    ensures 0 <= j' - j <= 1
  {
    if M > 0 {
      assert (i + 1) * m == i * m + m;
      assert (j' - j) * M == j' * M - j * M;
      MultipleBetween(j' - j, M);
    }
  }

  // ---------------------------------------------------------------------------------------
  // What a line is.

  /** A line runs from (x0, y0) to (x1, y1). */
  lemma LineEnds(trace: seq<Coord>, x0: int, y0: int, x1: int, y1: int)
    requires IsLine(trace, x0, y0, x1, y1)
    ensures trace[0] == Coord(x0, y0) && trace[|trace| - 1] == Coord(x1, y1)
  {
    var dx, dy := Abs(x1 - x0), Abs(y1 - y0);
    var first, last := trace[0], trace[|trace| - 1];
    assert LinePoint(first, 0, x0, y0, x1, y1) && LinePoint(last, |trace| - 1, x0, y0, x1, y1);
    if dy <= dx {
      NearestEnds(dy, dx);
      NearestUnique(0, StepsFrom(y0, y1, first.y), 0, dy, dx);
      NearestUnique(dx, StepsFrom(y0, y1, last.y), dy, dy, dx);
    } else {
      NearestEnds(dx, dy);
      NearestUnique(0, StepsFrom(x0, x1, first.x), 0, dx, dy);
      NearestUnique(dy, StepsFrom(x0, x1, last.x), dx, dx, dy);
    }
  }

  /** A line stays in the bounding box of its endpoints. */
  lemma LineInBox(trace: seq<Coord>, x0: int, y0: int, x1: int, y1: int)
    requires IsLine(trace, x0, y0, x1, y1)
    ensures forall i :: 0 <= i < |trace| ==> InBox(trace[i], x0, y0, x1, y1)
  {
    var dx, dy := Abs(x1 - x0), Abs(y1 - y0);
    forall i | 0 <= i < |trace|
      ensures InBox(trace[i], x0, y0, x1, y1)
    {
      var p := trace[i];
      assert LinePoint(p, i, x0, y0, x1, y1);
      if dy <= dx {
        NearestBounds(i, StepsFrom(y0, y1, p.y), dy, dx);
      } else {
        NearestBounds(i, StepsFrom(x0, x1, p.x), dx, dy);
      }
    }
  }

  /** A line is 8-connected: each point touches the next. */
  lemma LineConnected(trace: seq<Coord>, x0: int, y0: int, x1: int, y1: int)
    requires IsLine(trace, x0, y0, x1, y1)
    ensures forall i :: 0 <= i < |trace| - 1 ==> Adjacent8(trace[i], trace[i + 1])
  {
    var dx, dy := Abs(x1 - x0), Abs(y1 - y0);
    forall i | 0 <= i < |trace| - 1
      ensures Adjacent8(trace[i], trace[i + 1])
    {
      var p, q := trace[i], trace[i + 1];
      assert LinePoint(p, i, x0, y0, x1, y1) && LinePoint(q, i + 1, x0, y0, x1, y1);
      if dy <= dx {
        NearestStep(i, StepsFrom(y0, y1, p.y), StepsFrom(y0, y1, q.y), dy, dx);
      } else {
        NearestStep(i, StepsFrom(x0, x1, p.x), StepsFrom(x0, x1, q.x), dx, dy);
      }
    }
  }

  /** There is only one line between two endpoints. */
  lemma LineUnique(t: seq<Coord>, u: seq<Coord>, x0: int, y0: int, x1: int, y1: int)
    requires IsLine(t, x0, y0, x1, y1) && IsLine(u, x0, y0, x1, y1)
    ensures t == u
  {
    var dx, dy := Abs(x1 - x0), Abs(y1 - y0);
    forall i | 0 <= i < |t|
      ensures t[i] == u[i]
    {
      assert LinePoint(t[i], i, x0, y0, x1, y1) && LinePoint(u[i], i, x0, y0, x1, y1);
      if dy <= dx {
        NearestUnique(i, StepsFrom(y0, y1, t[i].y), StepsFrom(y0, y1, u[i].y), dy, dx);
      } else {
        NearestUnique(i, StepsFrom(x0, x1, t[i].x), StepsFrom(x0, x1, u[i].x), dx, dy);
      }
    }
  }

  // ---------------------------------------------------------------------------------------
  // The loop.

  /** The loop's error term after a steps along x and b along y. */
  function Err(a: int, b: int, dx: int, dy: int): int {
    (b + 1) * dx - (a + 1) * dy
  }

  /** A step along x lowers the error term by dy, a step along y raises it by dx. */
  lemma ErrStep(a: int, b: int, dx: int, dy: int)
    ensures Err(a + 1, b, dx, dy) == Err(a, b, dx, dy) - dy
    ensures Err(a, b + 1, dx, dy) == Err(a, b, dx, dy) + dx
  {
    assert (a + 2) * dy == (a + 1) * dy + dy;
    assert (b + 2) * dx == (b + 1) * dx + dx;
  }

  /**
   * The loop's position after a steps along x and b along y, n points emitted: the point is
   * point n of the line, one emitted per step along the major axis.
   */
  predicate Walked(a: int, b: int, dx: int, dy: int, n: int) {
    0 <= a <= dx && 0 <= b <= dy && (dx == dy ==> a == b) &&
    if dy <= dx then Nearest(a, b, dy, dx) && n == a else Nearest(b, a, dx, dy) && n == b
  }

  /** The first points of the line, the last one emitted last. */
  predicate LinePrefix(trace: seq<Coord>, x0: int, y0: int, x1: int, y1: int)
    decreases |trace|
  {
    trace == [] ||
    (LinePrefix(trace[..|trace| - 1], x0, y0, x1, y1) &&
     LinePoint(trace[|trace| - 1], |trace| - 1, x0, y0, x1, y1))
  }

  /** Every point of a prefix of the line is the point of the line at its index. */
  lemma {:induction false} PrefixPoints(trace: seq<Coord>, x0: int, y0: int, x1: int, y1: int)
    requires LinePrefix(trace, x0, y0, x1, y1)
    ensures forall i :: 0 <= i < |trace| ==> LinePoint(trace[i], i, x0, y0, x1, y1)
    decreases |trace|
  {
    if trace != [] {
      var t := trace[..|trace| - 1];
      PrefixPoints(t, x0, y0, x1, y1);
      assert forall i :: 0 <= i < |t| ==> trace[i] == t[i];
    }
  }

  /** The loop's point is point n of the line. */
  lemma Here(x0: int, y0: int, x1: int, y1: int, a: int, b: int, n: int)
    requires Walked(a, b, Abs(x1 - x0), Abs(y1 - y0), n)
    ensures LinePoint(Coord(Toward(x0, x1, a), Toward(y0, y1, b)), n, x0, y0, x1, y1)
  {
  }

  /** Emitting point n of the line extends the prefix. */
  lemma Emit(trace: seq<Coord>, p: Coord, x0: int, y0: int, x1: int, y1: int)
    requires LinePrefix(trace, x0, y0, x1, y1) && LinePoint(p, |trace|, x0, y0, x1, y1)
    ensures LinePrefix(trace + [p], x0, y0, x1, y1)
  {
    assert (trace + [p])[..|trace|] == trace;
  }

  /** At the end, one point per step along the major axis has been emitted. */
  lemma WalkedAll(dx: int, dy: int, n: int)
    requires Walked(dx, dy, dx, dy, n)
    ensures n == Max(dx, dy)
  {
  }

  /** The loop's point reaches the target on an axis exactly when all its steps are taken. */
  lemma Arrived(from: int, to: int, k: int)
    requires 0 <= k <= Abs(to - from)
    ensures Toward(from, to, k) == to <==> k == Abs(to - from)
  {
  }

  /** The pass that reaches the end emits the last point and completes the line. */
  lemma Finish(trace: seq<Coord>, x0: int, y0: int, x1: int, y1: int,
      x: int, y: int, err: int, a: int, b: int)
    requires Tracing(trace, x0, y0, x1, y1, x, y, err, a, b) && x == x1 && y == y1
    ensures IsLine(trace + [Coord(x, y)], x0, y0, x1, y1)
  {
    Arrived(x0, x1, a);
    Arrived(y0, y1, b);
    Here(x0, y0, x1, y1, a, b, |trace|);
    WalkedAll(a, b, |trace|);
    Emit(trace, Coord(x, y), x0, y0, x1, y1);
    PrefixPoints(trace + [Coord(x, y)], x0, y0, x1, y1);
  }

  /**
   * One pass of the loop away from the end, a and b counting the steps taken along x and y:
   * the error term e2 makes the step along the major axis, and a step along the minor axis
   * exactly when that keeps the point nearest to the ideal line, never past an endpoint. The
   * pass that stops halfway, after the x step, happens only once y is done, when no y step
   * would follow.
   */
  lemma Turn(dx: int, dy: int, a: int, b: int, n: int)
    requires Walked(a, b, dx, dy, n) && (a != dx || b != dy)
    ensures var e2 := 2 * Err(a, b, dx, dy);
      var a' := if e2 > -dy then a + 1 else a;
      var b' := if e2 < dx then b + 1 else b;
      Walked(a', b', dx, dy, n + 1) && a + b < a' + b' && (a' == dx && b == dy ==> b' == b)
  {
    assert (b + 1) * dx == b * dx + dx && (a + 1) * dy == a * dy + dy;
    if dy <= dx {
      NearestEnds(dy, dx);
      if a == dx {
        NearestUnique(dx, b, dy, dy, dx);
      }
      var e2 := 2 * ((b + 1) * dx - (a + 1) * dy);
      var b' := if e2 < dx then b + 1 else b;
      assert Nearest(a + 1, b', dy, dx);
      NearestBounds(a + 1, b', dy, dx);
    } else {
      NearestEnds(dx, dy);
      if b == dy {
        NearestUnique(dy, a, dx, dx, dy);
      }
      var e2 := 2 * ((b + 1) * dx - (a + 1) * dy);
      var a' := if e2 > -dy then a + 1 else a;
      assert Nearest(b + 1, a', dx, dy);
      NearestBounds(b + 1, a', dx, dy);
    }
  }

  /**
   * The loop's state after a steps along x and b along y: its point and error term, and the
   * points emitted so far, the first of the line.
   */
  predicate Tracing(trace: seq<Coord>, x0: int, y0: int, x1: int, y1: int,
    x: int, y: int, err: int, a: int, b: int)
  {
    x == Toward(x0, x1, a) && y == Toward(y0, y1, b) && err == Err(a, b, Abs(x1 - x0), Abs(y1 - y0)) &&
    Walked(a, b, Abs(x1 - x0), Abs(y1 - y0), |trace|) && LinePrefix(trace, x0, y0, x1, y1)
  }

  /**
   * A pass away from the end emits the loop's point as the next point of the line and moves
   * on as Turn says; when its x step reaches the end, the end is the only point left.
   */
  lemma Pass(trace: seq<Coord>, x0: int, y0: int, x1: int, y1: int,
      x: int, y: int, err: int, a: int, b: int)
      returns (x': int, y': int, err': int, a': int, b': int)
    requires Tracing(trace, x0, y0, x1, y1, x, y, err, a, b) && (x != x1 || y != y1)
    ensures x' == if 2 * err > 0 - Abs(y1 - y0) then x + (if x0 < x1 then 1 else -1) else x
    ensures y' == if 2 * err < Abs(x1 - x0) then y + (if y0 < y1 then 1 else -1) else y
    ensures err' == err - (if 2 * err > 0 - Abs(y1 - y0) then Abs(y1 - y0) else 0)
      + (if 2 * err < Abs(x1 - x0) then Abs(x1 - x0) else 0)
    ensures a + b < a' + b' <= Abs(x1 - x0) + Abs(y1 - y0)
    ensures x' == x1 && y == y1 ==> IsLine(trace + [Coord(x, y)] + [Coord(x', y)], x0, y0, x1, y1)
    ensures x' != x1 || y != y1 ==> Tracing(trace + [Coord(x, y)], x0, y0, x1, y1, x', y', err', a', b')
  {
    var dx: int, dy: int := Abs(x1 - x0), Abs(y1 - y0);
    Arrived(x0, x1, a);
    Arrived(y0, y1, b);
    Here(x0, y0, x1, y1, a, b, |trace|);
    Emit(trace, Coord(x, y), x0, y0, x1, y1);
    Turn(dx, dy, a, b, |trace|);
    ErrStep(a, b, dx, dy);
    a' := if 2 * err > 0 - dy then a + 1 else a;
    b' := if 2 * err < dx then b + 1 else b;
    ErrStep(a', b, dx, dy);
    Arrived(x0, x1, a');
    x', y', err' := Toward(x0, x1, a'), Toward(y0, y1, b'), Err(a', b', dx, dy);
    if x' == x1 && y == y1 {
      Finish(trace + [Coord(x, y)], x0, y0, x1, y1, x1, y, Err(a', b, dx, dy), a', b);
    }
  }

  /**
   * One pass of the loop below: it emits the loop's point and stops at the end, or takes the
   * step along x, stops if that reached the end, and takes the step along y.
   */
  method Step(x0: int, y0: int, x1: int, y1: int, dx: int, dy: int, sx: int, sy: int,
      trace: seq<Coord>, x: int, y: int, err: int, ghost a: int, ghost b: int)
      returns (trace': seq<Coord>, x': int, y': int, err': int, done: bool, ghost a': int, ghost b': int)
    requires dx == Abs(x1 - x0) && dy == Abs(y1 - y0)
    requires sx == (if x0 < x1 then 1 else -1) && sy == (if y0 < y1 then 1 else -1)
    requires Tracing(trace, x0, y0, x1, y1, x, y, err, a, b)
    ensures done ==> IsLine(trace', x0, y0, x1, y1)
    ensures !done ==> Tracing(trace', x0, y0, x1, y1, x', y', err', a', b') && a + b < a' + b' <= dx + dy
  {
    x', y', err', a', b' := x, y, err, a, b;
    trace' := trace + [Coord(x, y)];
    if x == x1 && y == y1 {
      Finish(trace, x0, y0, x1, y1, x, y, err, a, b);
      return trace', x', y', err', true, a', b';
    }
    ghost var px, py, perr;
    px, py, perr, a', b' := Pass(trace, x0, y0, x1, y1, x, y, err, a, b);
    var e2 := 2 * err;
    if e2 > -dy {
      err' := err' - dy;
      x' := x' + sx;
    }
    assert x' == px;
    if x' == x1 && y' == y1 {
      return trace' + [Coord(x', y')], x', y', err', true, a', b';
    }
    if e2 < dx {
      err' := err' + dx;
      y' := y' + sy;
    }
    assert y' == py && err' == perr;
    done := false;
  }

  /**
   * The points of the line from (x0, y0) to (x1, y1), in the order the loop visits them.
   * The loop terminates because every pass moves at least one axis closer to its target.
   */
  method RasterizeLine(x0: int, y0: int, x1: int, y1: int) returns (trace: seq<Coord>)
    ensures IsLine(trace, x0, y0, x1, y1)
  {
    var x, y := x0, y0;
    var dx: int := Abs(x1 - x0);
    var dy: int := Abs(y1 - y0);
    var sx := if x0 < x1 then 1 else -1;
    var sy := if y0 < y1 then 1 else -1;
    var err: int := dx - dy;
    // a and b count the steps taken along x and along y.
    ghost var a: int, b: int := 0, 0;
    trace := [];
    while true
      invariant Tracing(trace, x0, y0, x1, y1, x, y, err, a, b)
      decreases (dx - a) + (dy - b)
    {
      var done;
      trace, x, y, err, done, a, b := Step(x0, y0, x1, y1, dx, dy, sx, sy, trace, x, y, err, a, b);
      if done {
        break;
      }
    }
  }
}
