/** What the editor's operations put on the screen, cell by cell. Cell (x, y) is at position 16 * y + x. */
module Painting {
  import opened Wrappers
  import opened Canvas
  import opened Lines
  import opened FloodFill
  import opened Flips
  import opened Palettes
  import opened Timeline
  import opened EditorHistory

  // ----- strokes -----

  /** Some of the points is the cell in column `x` and row `y`. */
  predicate Touches(points: seq<Point>, x: int, y: int) {
    Point(x, y) in points
  }

  /** The colour in column `x` of row `y`. */
  function CellAt(p: Pixels, x: int, y: int): Color
    requires 0 <= x < 16 && 0 <= y < 16
  {
    p[16 * y + x]
  }

  /** `after` shows `ink` in exactly the touched cells and `before` in all others. */
  ghost predicate PaintedAlong(before: Pixels, after: Pixels, points: seq<Point>, ink: Color) {
    forall x, y :: 0 <= x < 16 && 0 <= y < 16 ==>
      CellAt(after, x, y) == if Touches(points, x, y) then ink else CellAt(before, x, y)
  }

  predicate AllOnCanvas(points: seq<Point>) {
    forall p :: p in points ==> OnCanvas(p.x, p.y)
  }

  lemma DrawnIsPainted(p: Pixels, points: seq<Point>, ink: Color)
    requires AllOnCanvas(points)
    ensures PaintedAlong(p, Drawn(p, points, ink), points, ink)
  {
    forall x, y | 0 <= x < 16 && 0 <= y < 16
      ensures Covers(points, 16 * y + x) <==> Touches(points, x, y)
    {
      CoversIffTouches(points, x, y);
    }
  }

  lemma CoversIffTouches(points: seq<Point>, x: int, y: int)
    requires AllOnCanvas(points) && 0 <= x < 16 && 0 <= y < 16
    ensures Covers(points, 16 * y + x) <==> Touches(points, x, y)
  {
    if Touches(points, x, y) {
      var n :| 0 <= n < |points| && points[n] == Point(x, y);
      assert IndexFor(points[n].x, points[n].y) == 16 * y + x;
    }
    if Covers(points, 16 * y + x) {
      var n :| 0 <= n < |points| && IndexFor(points[n].x, points[n].y) == 16 * y + x;
      assert points[n] in points;
      SameCell(points[n].x, points[n].y, x, y);
    }
  }

  lemma SameCell(a: int, b: int, x: int, y: int)
    requires OnCanvas(a, b) && OnCanvas(x, y) && IndexFor(a, b) == 16 * y + x
    ensures a == x && b == y
  {
  }

  /** The ink colour: the eraser leaves colour 0, every other tool the selected one. */
  function InkOf(m: Model): Color {
    if m.tool.Eraser? then 0 else m.selected
  }

  /** Continuing an open stroke paints exactly the line from the last point to the new one. */
  lemma ContinuePaintsLine(m: Model, x: int, y: int)
    requires Valid(m) && m.stroke.Some? && 0 <= x < 16 && 0 <= y < 16
    ensures var n, last := Run(m, [ContinueStroke(x, y)]), m.stroke.value.last;
            && PaintedAlong(m.Drawing(), n.Drawing(), IdealLine(last.x, last.y, x, y), InkOf(m))
            && n.stroke == Some(Stroke(m.stroke.value.before, Point(x, y))) && n.cursor == Point(x, y)
            && n == m.(cursor := n.cursor, stroke := n.stroke, history := m.history.(present := n.Drawing()))
  {
    var last := m.stroke.value.last;
    RunOne(m, ContinueStroke(x, y));
    LineStaysOnCanvas(last.x, last.y, x, y);
    DrawnIsPainted(m.Drawing(), IdealLine(last.x, last.y, x, y), InkOf(m));
  }

  /** A press of the pencil or eraser paints its cell and opens a stroke that remembers the drawing before it. */
  lemma PressDoes(m: Model, x: int, y: int)
    requires 0 <= x < 16 && 0 <= y < 16 && (m.tool.Pencil? || m.tool.Eraser?)
    ensures var n := Step(m, BeginStroke(x, y)).model;
            && PaintedAlong(m.Drawing(), n.Drawing(), [Point(x, y)], InkOf(m))
            && n == m.(cursor := Point(x, y), stroke := Some(Stroke(m.Drawing(), Point(x, y))),
                       history := m.history.(present := n.Drawing()))
  {
    PressPaintsDot(m, x, y);
    DotIsPainted(m, Point(x, y));
  }

  /**
   * What the strokes and the history report: a press that opens a stroke, a drag of an open one on the canvas, and an
   * undo or redo that has somewhere to go.
   */
  lemma ReportsAre(m: Model, x: int, y: int)
    ensures m.tool.Pencil? || m.tool.Eraser? ==>
              (Step(m, BeginStroke(x, y)).ok <==> 0 <= x < 16 && 0 <= y < 16)
    ensures Step(m, ContinueStroke(x, y)).ok <==> m.stroke.Some? && 0 <= x < 16 && 0 <= y < 16
    ensures !Step(m, ContinueStroke(x, y)).ok ==> Step(m, ContinueStroke(x, y)).model == m
    ensures m.stroke == None ==> Step(m, EndStroke) == Outcome(m, false)
    ensures Step(m, EndStroke).model.stroke == None && Step(m, EndStroke).model.Drawing() == m.Drawing()
    ensures Step(m, Undo).ok <==> m.history.past != []
    ensures Step(m, Redo).ok <==> m.history.future != []
  {
  }

  /** The cells a pointer visits from `last` on, line after line; points off the canvas are ignored. */
  function PathFrom(last: Point, through: seq<Point>): seq<Point>
    decreases |through|
  {
    if through == [] then []
    else if OnCanvas(through[0].x, through[0].y) then
      IdealLine(last.x, last.y, through[0].x, through[0].y) + PathFrom(through[0], through[1..])
    else PathFrom(last, through[1..])
  }

  /** The same point, or one of the eight around it. */
  predicate Close(p: Point, q: Point) {
    -1 <= q.x - p.x <= 1 && -1 <= q.y - p.y <= 1
  }

  predicate Gapless(points: seq<Point>) {
    forall i :: 0 < i < |points| ==> Close(points[i - 1], points[i])
  }

  lemma LineIsGapless(a: Point, b: Point)
    ensures Gapless(IdealLine(a.x, a.y, b.x, b.y))
  {
    var line := IdealLine(a.x, a.y, b.x, b.y);
    forall i: nat | 0 < i < |line| ensures Close(line[i - 1], line[i]) {
      LineIsConnected(a.x, a.y, b.x, b.y, i - 1);
    }
  }

  /** The path goes on where the stroke is, never leaves the canvas, has no gap, and ends at its last point. */
  lemma {:induction false} PathIsGapless(last: Point, through: seq<Point>)
    requires OnCanvas(last.x, last.y)
    ensures var path := PathFrom(last, through);
            Gapless(path) && AllOnCanvas(path) && (path != [] ==> path[0] == last)
    decreases |through|
  {
    if through != [] {
      var p := through[0];
      if OnCanvas(p.x, p.y) {
        var line := IdealLine(last.x, last.y, p.x, p.y);
        LineIsGapless(last, p);
        LineJoinsEndpoints(last.x, last.y, p.x, p.y);
        LineStaysOnCanvas(last.x, last.y, p.x, p.y);
        PathIsGapless(p, through[1..]);
        PathsJoin(line, PathFrom(p, through[1..]));
      } else {
        PathIsGapless(last, through[1..]);
      }
    }
  }

  lemma PathsJoin(a: seq<Point>, b: seq<Point>)
    requires Gapless(a) && Gapless(b) && AllOnCanvas(a) && AllOnCanvas(b)
    requires a != [] && b != [] ==> a[|a| - 1] == b[0]
    ensures Gapless(a + b) && AllOnCanvas(a + b)
  {
    forall i: nat | 0 < i < |a + b| ensures Close((a + b)[i - 1], (a + b)[i]) { JoinedPoints(a, b, i); }
  }

  lemma JoinedPoints(a: seq<Point>, b: seq<Point>, i: nat)
    requires Gapless(a) && Gapless(b) && 0 < i < |a + b|
    requires a != [] && b != [] ==> a[|a| - 1] == b[0]
    ensures Close((a + b)[i - 1], (a + b)[i])
  {
    if i > |a| { assert (a + b)[i] == b[i - |a|] && (a + b)[i - 1] == b[i - |a| - 1]; }
  }

  /** Every point the pointer visits on the canvas is on the path. */
  lemma {:induction false} PathVisits(last: Point, through: seq<Point>, i: nat)
    requires i < |through| && OnCanvas(through[i].x, through[i].y)
    ensures through[i] in PathFrom(last, through)
    decreases |through|
  {
    var p := through[0];
    if i == 0 {
      LineJoinsEndpoints(last.x, last.y, p.x, p.y);
      var line := IdealLine(last.x, last.y, p.x, p.y);
      assert line[|line| - 1] == p;
    } else {
      PathVisits(if OnCanvas(p.x, p.y) then p else last, through[1..], i - 1);
    }
  }

  /** A drag of any length paints exactly its path. */
  lemma {:induction false} DragPaintsPath(m: Model, through: seq<Point>)
    requires Valid(m) && m.stroke.Some?
    ensures var n := Run(m, Continues(through));
            PaintedAlong(m.Drawing(), n.Drawing(), PathFrom(m.stroke.value.last, through), InkOf(m))
    decreases |through|
  {
    if through != [] {
      var p := through[0];
      var next := Step(m, ContinueStroke(p.x, p.y)).model;
      assert Continues(through)[1..] == Continues(through[1..]);
      StepKeepsValid(m, ContinueStroke(p.x, p.y));
      DragPaintsPath(next, through[1..]);
      if OnCanvas(p.x, p.y) {
        ContinuePaintsLine(m, p.x, p.y);
        RunOne(m, ContinueStroke(p.x, p.y));
        var line := IdealLine(m.stroke.value.last.x, m.stroke.value.last.y, p.x, p.y);
        PaintedTwice(m.Drawing(), next.Drawing(), Run(m, Continues(through)).Drawing(), line,
                     PathFrom(p, through[1..]), InkOf(m));
      }
    }
  }

  lemma PaintedTwice(p: Pixels, q: Pixels, r: Pixels, first: seq<Point>, second: seq<Point>, ink: Color)
    requires PaintedAlong(p, q, first, ink) && PaintedAlong(q, r, second, ink)
    ensures PaintedAlong(p, r, first + second, ink)
  {
    forall x, y | 0 <= x < 16 && 0 <= y < 16
      ensures CellAt(r, x, y) == if Touches(first + second, x, y) then ink else CellAt(p, x, y)
    {
      assert Touches(first + second, x, y) <==> Touches(first, x, y) || Touches(second, x, y);
    }
  }

  /**
   * A whole stroke of the pencil or eraser, from press to release: it paints a gapless path on the canvas that starts
   * at the press and visits every point of the drag, and nothing else.
   */
  lemma StrokePaintsPath(m: Model, a: Point, through: seq<Point>)
    requires Valid(m) && Opens(m, a)
    ensures var path := [a] + PathFrom(a, through);
            && Gapless(path) && AllOnCanvas(path)
            && (forall i :: 0 <= i < |through| && OnCanvas(through[i].x, through[i].y) ==> through[i] in path)
            && PaintedAlong(m.Drawing(), Run(m, Actions(Drag(a, through))).Drawing(), path, InkOf(m))
  {
    PathIsGapless(a, through);
    PathsJoin([a], PathFrom(a, through));
    forall i | 0 <= i < |through| && OnCanvas(through[i].x, through[i].y)
      ensures through[i] in [a] + PathFrom(a, through)
    {
      PathVisits(a, through, i);
      var k :| 0 <= k < |PathFrom(a, through)| && PathFrom(a, through)[k] == through[i];
      assert ([a] + PathFrom(a, through))[k + 1] == through[i];
    }
    StrokePaints(m, a, through);
  }

  lemma StrokePaints(m: Model, a: Point, through: seq<Point>)
    requires Valid(m) && Opens(m, a)
    ensures PaintedAlong(m.Drawing(), Run(m, Actions(Drag(a, through))).Drawing(), [a] + PathFrom(a, through), InkOf(m))
  {
    var begun := Press(m, a.x, a.y).model;
    StrokeDrawing(m, a, through);
    PressPaintsDot(m, a.x, a.y);
    StepKeepsValid(m, BeginStroke(a.x, a.y));
    DragPaintsPath(begun, through);
    DotIsPainted(m, a);
    PaintedTwice(m.Drawing(), begun.Drawing(), Run(begun, Continues(through)).Drawing(), [a], PathFrom(a, through),
                 InkOf(m));
  }

  lemma DotIsPainted(m: Model, a: Point)
    requires Opens(m, a)
    ensures PaintedAlong(m.Drawing(), Dotted(m, a), [a], InkOf(m))
  {
    forall x, y | 0 <= x < 16 && 0 <= y < 16 ensures IndexFor(a.x, a.y) == 16 * y + x <==> a == Point(x, y) {
      if IndexFor(a.x, a.y) == 16 * y + x { SameCell(a.x, a.y, x, y); }
    }
  }

  /** Releasing changes nothing on the screen. */
  lemma StrokeDrawing(m: Model, a: Point, through: seq<Point>)
    ensures Run(m, Actions(Drag(a, through))).Drawing() == Run(Press(m, a.x, a.y).model, Continues(through)).Drawing()
  {
    RunAppend(m, [BeginStroke(a.x, a.y)], Continues(through) + [EndStroke]);
    RunOne(m, BeginStroke(a.x, a.y));
    var begun := Press(m, a.x, a.y).model;
    RunAppend(begun, Continues(through), [EndStroke]);
    RunOne(Run(begun, Continues(through)), EndStroke);
  }

  // ----- clicks and edits of the whole canvas -----

  /**
   * A click: pencil and eraser paint the one cell, the fill tool recolours what is connected to it, the eyedropper
   * takes its colour and paints nothing; off the canvas it does nothing. The cursor follows.
   */
  lemma ClickDoes(m: Model, x: int, y: int)
    requires Valid(m)
    ensures var n := Run(m, [ApplyAt(x, y)]);
            if !(0 <= x < 16 && 0 <= y < 16) then n == m
            else
              && n.cursor == Point(x, y) && n.tool == m.tool
              && n.selected == (if m.tool.Eyedropper? then m.Drawing()[16 * y + x] else m.selected)
              && (forall k :: 0 <= k < 256 ==>
                    n.Drawing()[k] == match m.tool
                                      case Pencil => if k == 16 * y + x then m.selected else m.Drawing()[k]
                                      case Eraser => if k == 16 * y + x then 0 else m.Drawing()[k]
                                      case Fill =>
                                        if Reaches(m.Drawing(), 16 * y + x, k) then m.selected else m.Drawing()[k]
                                      case Eyedropper => m.Drawing()[k])
  {
    RunOne(m, ApplyAt(x, y));
  }

  /** A press of the fill tool or the eyedropper does what a click does. */
  lemma PressDoesClick(m: Model, x: int, y: int)
    requires m.tool.Fill? || m.tool.Eyedropper?
    ensures Step(m, BeginStroke(x, y)) == Step(m, ApplyAt(x, y))
  {
    if OnCanvas(x, y) {
      var at, k := m.(cursor := Point(x, y)), IndexFor(x, y);
      ToolIgnoresDot(at, k, m.Drawing(), m.Drawing()[k := m.Ink()]);
    }
  }

  lemma ToolIgnoresDot(m: Model, k: int, p: Pixels, q: Pixels)
    requires IsCell(k) && (m.tool.Fill? || m.tool.Eyedropper?)
    ensures ApplyTool(m, k, p) == ApplyTool(m, k, q)
  {
  }

  /** Clearing leaves colour 0 everywhere. */
  lemma ClearDoes(m: Model, k: int)
    requires 0 <= k < 256
    ensures Step(m, Clear).model.Drawing()[k] == 0
  {
  }

  /** A horizontal flip reverses the cells of every row, a vertical one the rows. */
  lemma FlipDoes(m: Model, x: int, y: int)
    requires 0 <= x < 16 && 0 <= y < 16
    ensures Step(m, Flip(Horizontal)).model.Drawing()[16 * y + x] == m.Drawing()[16 * y + (15 - x)]
    ensures Step(m, Flip(Vertical)).model.Drawing()[16 * y + x] == m.Drawing()[16 * (15 - y) + x]
  {
    FlipShows(m, Horizontal, 16 * y + x);
    FlipShows(m, Vertical, 16 * y + x);
    FlippedCells(m.Drawing(), x, y);
  }

  lemma FlipShows(m: Model, axis: Axis, k: int)
    requires IsCell(k)
    ensures Step(m, Flip(axis)).model.Drawing()[k] == Flipped(axis, m.Drawing())[k]
  {
  }

  lemma FlippedCells(p: Pixels, x: int, y: int)
    requires 0 <= x < 16 && 0 <= y < 16
    ensures Flipped(Horizontal, p)[16 * y + x] == p[16 * y + (15 - x)]
    ensures Flipped(Vertical, p)[16 * y + x] == p[16 * (15 - y) + x]
  {
    CellIs(x, y);
  }

  /** Cells touch across an edge only: one step left, right, up or down. */
  lemma AdjacentCells(x: int, y: int, a: int, b: int)
    requires 0 <= x < 16 && 0 <= y < 16 && 0 <= a < 16 && 0 <= b < 16
    ensures Adjacent(16 * y + x, 16 * b + a) <==>
              (y == b && (a == x - 1 || a == x + 1)) || (x == a && (b == y - 1 || b == y + 1))
  {
    CellOf(x, y);
    CellOf(a, b);
    OneApart(x, y, a, b);
  }

  lemma CellOf(x: int, y: int)
    requires 0 <= x < 16 && 0 <= y < 16
    ensures IsCell(16 * y + x) && CellX(16 * y + x) == x && CellY(16 * y + x) == y
  {
  }

  lemma OneApart(x: int, y: int, a: int, b: int)
    ensures Abs(x - a) + Abs(y - b) == 1 <==>
              (y == b && (a == x - 1 || a == x + 1)) || (x == a && (b == y - 1 || b == y + 1))
  {
  }

  // ----- settings -----

  /** A setting is taken exactly when it makes sense, and is the only thing that changes. */
  lemma SettingsAreChecked(m: Model, value: int, name: string, id: string, version: int)
    ensures Step(m, SetSelected(value))
         == if 0 <= value <= 15 then Outcome(m.(selected := value), true) else Outcome(m, false)
    ensures Step(m, SetTool(name)).ok <==> name in ["pencil", "eraser", "fill", "eyedropper"]
    ensures Step(m, SetTool(name)).model == m.(tool := Step(m, SetTool(name)).model.tool)
    ensures Step(m, SetTool(name)).ok ==> ToolName(Step(m, SetTool(name)).model.tool) == name
    ensures !Step(m, SetTool(name)).ok ==> Step(m, SetTool(name)).model == m
    ensures Step(m, SetPalette(id, version)).ok <==> exists p :: p in m.catalog && p.id == id && p.version == version
    ensures Step(m, SetPalette(id, version)).model
         == if Step(m, SetPalette(id, version)).ok then m.(paletteId := id, paletteVersion := version) else m
  {
    var found := PaletteFrom(m.catalog, id, version);
    if found.Some? { assert found.value in m.catalog; }
  }

  /** The cursor stays on the canvas: a position off it is refused, a move is cut off at the edge. */
  lemma CursorIsKept(m: Model, x: int, y: int)
    requires Valid(m)
    ensures Step(m, SetCursor(x, y))
         == if 0 <= x <= 15 && 0 <= y <= 15 then Outcome(m.(cursor := Point(x, y)), true) else Outcome(m, false)
    ensures var c := Step(m, MoveCursor(x, y)).model.cursor;
            && 0 <= c.x <= 15 && 0 <= c.y <= 15
            && (0 <= m.cursor.x + x <= 15 ==> c.x == m.cursor.x + x)
            && (0 <= m.cursor.y + y <= 15 ==> c.y == m.cursor.y + y)
            && (m.cursor.x + x < 0 ==> c.x == 0) && (m.cursor.x + x > 15 ==> c.x == 15)
            && (m.cursor.y + y < 0 ==> c.y == 0) && (m.cursor.y + y > 15 ==> c.y == 15)
            && Step(m, MoveCursor(x, y)).model == m.(cursor := c)
  {
  }
}
