/** Integer line interpolation: the error-accumulating loop against exact rounding. */
module Lines {
  import opened Arithmetic
  import opened Canvas

  datatype Point = Point(x: int, y: int)

  /** `n * delta / longest` rounded to the nearest integer, exact halves rounded up. */
  function Rounded(n: nat, delta: nat, longest: nat): int {
    if longest == 0 then 0 else (2 * n * delta + longest) / (2 * longest)
  }

  /** Number of moves between two endpoints: the larger of the two distances. */
  function Moves(x0: int, y0: int, x1: int, y1: int): nat {
    Max(Abs(x1 - x0), Abs(y1 - y0))
  }

  function Direction(from: int, to: int): int {
    if from < to then 1 else -1
  }

  /** The ideal point after `n` of `Moves` equal steps, rounded on each axis in the direction of travel. */
  function IdealPoint(x0: int, y0: int, x1: int, y1: int, n: nat): Point {
    var m := Moves(x0, y0, x1, y1);
    Point(x0 + Direction(x0, x1) * Rounded(n, Abs(x1 - x0), m),
          y0 + Direction(y0, y1) * Rounded(n, Abs(y1 - y0), m))
  }

  function IdealLine(x0: int, y0: int, x1: int, y1: int): (line: seq<Point>)
    ensures |line| == Moves(x0, y0, x1, y1) + 1
    ensures forall n :: 0 <= n < |line| ==> line[n] == IdealPoint(x0, y0, x1, y1, n)
  {
    seq(Moves(x0, y0, x1, y1) + 1, n requires 0 <= n => IdealPoint(x0, y0, x1, y1, n))
  }

  /** Rounding is the unique integer within half a step of the exact value, halves going up. */
  lemma RoundedIsNearest(n: nat, delta: nat, longest: nat, r: int)
    requires 0 < longest
    ensures r == Rounded(n, delta, longest)
       <==> (2 * r - 1) * longest <= 2 * n * delta < (2 * r + 1) * longest
  {
    QuotientIsUnique(2 * n * delta + longest, 2 * longest, r);
    assert (2 * longest) * r == (2 * r) * longest;
    assert (2 * r - 1) * longest == (2 * r) * longest - longest;
    assert (2 * r + 1) * longest == (2 * r) * longest + longest;
  }

  lemma RoundedStart(delta: nat, longest: nat)
    ensures Rounded(0, delta, longest) == 0
  {
    if longest > 0 { RoundedIsNearest(0, delta, longest, 0); }
  }

  /** On an axis travelled in full, every step moves by exactly one. */
  lemma RoundedFull(n: nat, longest: nat)
    requires n <= longest
    ensures Rounded(n, longest, longest) == n
  {
    if longest > 0 { RoundedIsNearest(n, longest, longest, n); }
  }

  lemma RoundedEnd(delta: nat, longest: nat)
    requires delta <= longest
    ensures Rounded(longest, delta, longest) == delta
  {
    if longest > 0 { RoundedIsNearest(longest, delta, longest, delta); }
  }

  /** One more step advances the rounded value by one exactly when the error test of the loop says so. */
  lemma RoundedStep(n: nat, delta: nat, longest: nat)
    requires 0 < longest && delta <= longest
    ensures var r := Rounded(n, delta, longest);
            Rounded(n + 1, delta, longest) == if (2 * r + 1) * longest <= 2 * (n + 1) * delta then r + 1 else r
  {
    var r := Rounded(n, delta, longest);
    RoundedIsNearest(n, delta, longest, r);
    assert 2 * (n + 1) * delta == 2 * n * delta + 2 * delta;
    var next := if (2 * r + 1) * longest <= 2 * (n + 1) * delta then r + 1 else r;
    assert (2 * (r + 1) + 1) * longest == (2 * r + 1) * longest + 2 * longest;
    RoundedIsNearest(n + 1, delta, longest, next);
  }

  lemma RoundedMonotone(n: nat, m: nat, delta: nat, longest: nat)
    requires n <= m && delta <= longest
    ensures Rounded(n, delta, longest) <= Rounded(m, delta, longest)
  {
    if n < m && longest > 0 {
      RoundedMonotone(n, m - 1, delta, longest);
      RoundedStep(m - 1, delta, longest);
    }
  }

  lemma RoundedRange(n: nat, delta: nat, longest: nat)
    requires n <= longest && delta <= longest
    ensures 0 <= Rounded(n, delta, longest) <= delta
  {
    RoundedStart(delta, longest);
    RoundedEnd(delta, longest);
    RoundedMonotone(0, n, delta, longest);
    RoundedMonotone(n, longest, delta, longest);
  }

  /** The loop's accumulator after `n` moves: `i` of them on x and `j` on y. */
  ghost function ErrorAfter(a: nat, b: nat, n: nat): int {
    var m := Max(a, b);
    (a - b) - Rounded(n, a, m) * b + Rounded(n, b, m) * a
  }

  /** The interpolation loop: its two tests on `error` are exactly the two rounding decisions. */
  method LinePoints(x0: int, y0: int, x1: int, y1: int) returns (points: seq<Point>)
    ensures points == IdealLine(x0, y0, x1, y1)
  {
    points := [];
    var x, y := x0, y0;
    var deltaX := Abs(x1 - x0);
    var stepX := Direction(x0, x1);
    var deltaY := 0 - Abs(y1 - y0);
    var stepY := Direction(y0, y1);
    var error := deltaX + deltaY;

    ghost var a: nat, b: nat, m := deltaX, 0 - deltaY, Moves(x0, y0, x1, y1);
    ghost var n: nat := 0;
    LoopStart(x0, y0, x1, y1);
    while true
      invariant n <= m
      invariant Point(x, y) == IdealPoint(x0, y0, x1, y1, n)
      invariant error == ErrorAfter(a, b, n)
      invariant points == IdealLine(x0, y0, x1, y1)[..n]
      decreases m - n
    {
      points := points + [Point(x, y)];
      LoopExit(x0, y0, x1, y1, n);
      if x == x1 && y == y1 {
        break;
      }
      LoopMove(x0, y0, x1, y1, n);
      var doubled := error * 2;
      if doubled >= deltaY {
        error := error + deltaY;
        x := x + stepX;
      }
      if doubled <= deltaX {
        error := error + deltaX;
        y := y + stepY;
      }
      n := n + 1;
    }
  }

  lemma LoopStart(x0: int, y0: int, x1: int, y1: int)
    ensures IdealPoint(x0, y0, x1, y1, 0) == Point(x0, y0)
    ensures ErrorAfter(Abs(x1 - x0), Abs(y1 - y0), 0) == Abs(x1 - x0) - Abs(y1 - y0)
  {
    RoundedStart(Abs(x1 - x0), Moves(x0, y0, x1, y1));
    RoundedStart(Abs(y1 - y0), Moves(x0, y0, x1, y1));
  }

  /** The exit test succeeds after the last move and not before. */
  lemma LoopExit(x0: int, y0: int, x1: int, y1: int, n: nat)
    requires n <= Moves(x0, y0, x1, y1)
    ensures IdealPoint(x0, y0, x1, y1, n) == Point(x1, y1) <==> n == Moves(x0, y0, x1, y1)
  {
    var a, b, m := Abs(x1 - x0), Abs(y1 - y0), Moves(x0, y0, x1, y1);
    RoundedFull(n, m);
    if n == m { RoundedEnd(a, m); RoundedEnd(b, m); }
  }

  lemma LoopMove(x0: int, y0: int, x1: int, y1: int, n: nat)
    requires n < Moves(x0, y0, x1, y1)
    ensures var a, b := Abs(x1 - x0), Abs(y1 - y0);
            var p, next := IdealPoint(x0, y0, x1, y1, n), IdealPoint(x0, y0, x1, y1, n + 1);
            var doubled: int := 2 * ErrorAfter(a, b, n);
            && next.x == p.x + (if doubled + b >= 0 then Direction(x0, x1) else 0)
            && next.y == p.y + (if doubled <= a then Direction(y0, y1) else 0)
            && ErrorAfter(a, b, n + 1)
               == ErrorAfter(a, b, n) - (if doubled + b >= 0 then b else 0) + (if doubled <= a then a else 0)
  {
    var a, b, m := Abs(x1 - x0), Abs(y1 - y0), Moves(x0, y0, x1, y1);
    StepDecision(n, a, b);
    ErrorMove(a, b, n);
    DirectedMove(x0, x1, Rounded(n, a, m), Rounded(n + 1, a, m));
    DirectedMove(y0, y1, Rounded(n, b, m), Rounded(n + 1, b, m));
  }

  lemma DirectedMove(from: int, to: int, r: int, next: int)
    ensures var d := Direction(from, to);
            d * next == d * r + (if next == r + 1 then d else d * (next - r))
  {
  }

  lemma ErrorMove(a: nat, b: nat, n: nat)
    requires n < Max(a, b)
    ensures var doubled: int := 2 * ErrorAfter(a, b, n);
            ErrorAfter(a, b, n + 1)
            == ErrorAfter(a, b, n) - (if doubled + b >= 0 then b else 0) + (if doubled <= a then a else 0)
  {
    var m := Max(a, b);
    StepDecision(n, a, b);
    var i, j := Rounded(n, a, m), Rounded(n, b, m);
    Distribute(i, b);
    Distribute(j, a);
  }

  lemma Distribute(i: int, b: int)
    ensures (i + 1) * b == i * b + b
  {
  }

  /** Both branch tests of the loop, read as rounding decisions on the two axes. */
  lemma StepDecision(n: nat, a: nat, b: nat)
    requires n < Max(a, b)
    ensures var m := Max(a, b);
            var i, j := Rounded(n, a, m), Rounded(n, b, m);
            var doubled: int := 2 * ((a - b) - i * b + j * a);
            && Rounded(n + 1, a, m) == (if doubled + b >= 0 then i + 1 else i)
            && Rounded(n + 1, b, m) == (if doubled <= a then j + 1 else j)
  {
    var m := Max(a, b);
    RoundedFull(n, m);
    RoundedFull(n + 1, m);
    if a >= b {
      MinorAxisDecision(n, b, a);
    } else {
      MinorAxisDecision(n, a, b);
    }
  }

  lemma MinorAxisDecision(n: nat, delta: nat, longest: nat)
    requires 0 < longest && delta <= longest
    ensures var r := Rounded(n, delta, longest);
            && 2 * (n * delta) < 2 * (r * longest) + longest
            && Rounded(n + 1, delta, longest)
               == if 2 * (r * longest) + longest <= 2 * (n * delta) + 2 * delta then r + 1 else r
  {
    var r := Rounded(n, delta, longest);
    RoundedIsNearest(n, delta, longest, r);
    RoundedStep(n, delta, longest);
    assert (2 * r + 1) * longest == 2 * (r * longest) + longest;
    assert 2 * (n + 1) * delta == 2 * (n * delta) + 2 * delta;
    assert 2 * n * delta == 2 * (n * delta);
  }

  // ----- what the interpolated line is good for -----

  lemma LineJoinsEndpoints(x0: int, y0: int, x1: int, y1: int)
    ensures var line := IdealLine(x0, y0, x1, y1);
            line[0] == Point(x0, y0) && line[|line| - 1] == Point(x1, y1)
  {
    var a, b, m := Abs(x1 - x0), Abs(y1 - y0), Moves(x0, y0, x1, y1);
    RoundedStart(a, m);
    RoundedStart(b, m);
    RoundedEnd(a, m);
    RoundedEnd(b, m);
  }

  /** No point leaves the rectangle spanned by the endpoints. */
  lemma LineStaysInBox(x0: int, y0: int, x1: int, y1: int, n: nat)
    requires n <= Moves(x0, y0, x1, y1)
    ensures var p := IdealPoint(x0, y0, x1, y1, n);
            Min(x0, x1) <= p.x <= Max(x0, x1) && Min(y0, y1) <= p.y <= Max(y0, y1)
  {
    var m := Moves(x0, y0, x1, y1);
    RoundedRange(n, Abs(x1 - x0), m);
    RoundedRange(n, Abs(y1 - y0), m);
  }

  lemma LineStaysOnCanvas(x0: int, y0: int, x1: int, y1: int)
    requires OnCanvas(x0, y0) && OnCanvas(x1, y1)
    ensures forall p :: p in IdealLine(x0, y0, x1, y1) ==> OnCanvas(p.x, p.y)
  {
    var line := IdealLine(x0, y0, x1, y1);
    forall n: nat | n < |line| ensures OnCanvas(line[n].x, line[n].y) {
      LineStaysInBox(x0, y0, x1, y1, n);
    }
  }

  /** The line has no gaps and never stands still: each move changes an axis by one, none by more. */
  lemma LineIsConnected(x0: int, y0: int, x1: int, y1: int, n: nat)
    requires n < Moves(x0, y0, x1, y1)
    ensures var p, q := IdealPoint(x0, y0, x1, y1, n), IdealPoint(x0, y0, x1, y1, n + 1);
            Max(Abs(q.x - p.x), Abs(q.y - p.y)) == 1
  {
    var a, b, m := Abs(x1 - x0), Abs(y1 - y0), Moves(x0, y0, x1, y1);
    RoundedStep(n, a, m);
    RoundedStep(n, b, m);
    RoundedFull(n, m);
    RoundedFull(n + 1, m);
  }

  /**
   * Half-pixel accuracy, without division: twice the cross product of a point's offset with the line's
   * direction never exceeds the longer distance.
   */
  lemma LineIsAccurate(x0: int, y0: int, x1: int, y1: int, n: nat)
    requires n <= Moves(x0, y0, x1, y1)
    ensures var p := IdealPoint(x0, y0, x1, y1, n);
            Abs(2 * ((p.y - y0) * (x1 - x0) - (p.x - x0) * (y1 - y0))) <= Moves(x0, y0, x1, y1)
  {
    var a, b, m := Abs(x1 - x0), Abs(y1 - y0), Moves(x0, y0, x1, y1);
    if m > 0 {
      var i, j := Rounded(n, a, m), Rounded(n, b, m);
      RoundedFull(n, m);
      if a >= b { NearestError(n, b, a); } else { NearestError(n, a, b); }
      SignedCross(x1 - x0, y1 - y0, Direction(x0, x1), Direction(y0, y1), i, j, m);
    }
  }

  lemma NearestError(n: nat, delta: nat, longest: nat)
    requires 0 < longest
    ensures Abs(2 * (Rounded(n, delta, longest) * longest - n * delta)) <= longest
  {
    var r := Rounded(n, delta, longest);
    RoundedIsNearest(n, delta, longest, r);
    assert (2 * r + 1) * longest == 2 * (r * longest) + longest;
    assert (2 * r - 1) * longest == 2 * (r * longest) - longest;
    assert 2 * n * delta == 2 * (n * delta);
  }

  /** The directions only turn the cross product's sign. */
  lemma SignedCross(dx: int, dy: int, sx: int, sy: int, i: int, j: int, m: int)
    requires sx in {1, -1} && sy in {1, -1} && dx == sx * Abs(dx) && dy == sy * Abs(dy)
    requires Abs(2 * (j * Abs(dx) - i * Abs(dy))) <= m
    ensures Abs(2 * ((sy * j) * dx - (sx * i) * dy)) <= m
  {
    SignedProduct(sy, j, sx, Abs(dx));
    SignedProduct(sx, i, sy, Abs(dy));
  }

  lemma SignedProduct(s: int, u: int, t: int, v: int)
    requires s in {1, -1} && t in {1, -1}
    ensures (s * u) * (t * v) == (if s == t then u * v else -(u * v))
  {
  }

  /**
   * Mirroring both endpoints on x mirrors every point, also for a vertical line, where the direction is
   * -1 on both sides but no move ever uses it.
   */
  lemma LineMirrorsX(x0: int, y0: int, x1: int, y1: int, axis: int)
    ensures var line := IdealLine(x0, y0, x1, y1);
            IdealLine(axis - x0, y0, axis - x1, y1)
            == seq(|line|, n requires 0 <= n < |line| => Point(axis - line[n].x, line[n].y))
  {
    RoundedZero(x0, y0, x1, y1);
  }

  lemma LineMirrorsY(x0: int, y0: int, x1: int, y1: int, axis: int)
    ensures var line := IdealLine(x0, y0, x1, y1);
            IdealLine(x0, axis - y0, x1, axis - y1)
            == seq(|line|, n requires 0 <= n < |line| => Point(line[n].x, axis - line[n].y))
  {
    RoundedZero(x0, y0, x1, y1);
  }

  lemma RoundedZero(x0: int, y0: int, x1: int, y1: int)
    ensures forall n: nat :: n <= Moves(x0, y0, x1, y1) ==> Rounded(n, 0, Moves(x0, y0, x1, y1)) == 0
  {
    var m := Moves(x0, y0, x1, y1);
    forall n: nat | n <= m ensures Rounded(n, 0, m) == 0 { RoundedRange(n, 0, m); }
  }

  // ----- painting a set of points -----

  ghost predicate Covers(points: seq<Point>, k: int) {
    exists n :: 0 <= n < |points| && IndexFor(points[n].x, points[n].y) == k
  }

  /** The drawing with every cell named by `points` set to `value`. */
  ghost function Drawn(p: Pixels, points: seq<Point>, value: Color): (q: Pixels)
    ensures forall k :: IsCell(k) ==> q[k] == if Covers(points, k) then value else p[k]
  {
    seq(PIXEL_COUNT, k requires 0 <= k < PIXEL_COUNT => if Covers(points, k) then value else p[k])
  }

  lemma CoversOneMore(points: seq<Point>, n: nat)
    requires n < |points|
    ensures forall k :: Covers(points[..n + 1], k) <==>
                          Covers(points[..n], k) || k == IndexFor(points[n].x, points[n].y)
  {
    forall k ensures Covers(points[..n + 1], k) <==> Covers(points[..n], k) || k == IndexFor(points[n].x, points[n].y) {
      if Covers(points[..n], k) {
        var i :| 0 <= i < n && IndexFor(points[..n][i].x, points[..n][i].y) == k;
        assert points[..n + 1][i] == points[..n][i];
      }
      if k == IndexFor(points[n].x, points[n].y) { assert points[..n + 1][n] == points[n]; }
      if Covers(points[..n + 1], k) {
        var i :| 0 <= i < n + 1 && IndexFor(points[..n + 1][i].x, points[..n + 1][i].y) == k;
        if i < n { assert points[..n][i] == points[..n + 1][i]; }
      }
    }
  }
}
