/** Mirroring a drawing, and how it commutes with painting lines and filling regions. */
module Flips {
  import opened Canvas
  import opened Lines
  import opened FloodFill

  datatype Axis = Horizontal | Vertical

  /** The cell a cell is mirrored to: columns reversed, or rows reversed. */
  function Mirror(axis: Axis, k: int): int {
    match axis
    case Horizontal => IndexFor(WIDTH - 1 - CellX(k), CellY(k))
    case Vertical => IndexFor(CellX(k), HEIGHT - 1 - CellY(k))
  }

  function Flipped(axis: Axis, p: Pixels): (q: Pixels)
    ensures forall k :: IsCell(k) ==> q[k] == p[Mirror(axis, k)]
  {
    seq(PIXEL_COUNT, k requires 0 <= k < PIXEL_COUNT => p[Mirror(axis, k)])
  }

  method FlippedHorizontally(pixels: array<Color>) returns (result: array<Color>)
    requires pixels.Length == PIXEL_COUNT
    ensures fresh(result) && result[..] == Flipped(Horizontal, pixels[..])
  {
    result := new Color[PIXEL_COUNT];
    for y := 0 to HEIGHT
      invariant forall k :: IsCell(k) && CellY(k) < y ==> result[k] == pixels[Mirror(Horizontal, k)]
    {
      for x := 0 to WIDTH
        invariant forall k :: IsCell(k) && CellY(k) < y ==> result[k] == pixels[Mirror(Horizontal, k)]
        invariant forall k :: IsCell(k) && CellY(k) == y && CellX(k) > WIDTH - 1 - x ==>
                    result[k] == pixels[Mirror(Horizontal, k)]
      {
        CellIs(WIDTH - 1 - x, y);
        result[IndexFor(WIDTH - 1 - x, y)] := pixels[IndexFor(x, y)];
      }
    }
  }

  method FlippedVertically(pixels: array<Color>) returns (result: array<Color>)
    requires pixels.Length == PIXEL_COUNT
    ensures fresh(result) && result[..] == Flipped(Vertical, pixels[..])
  {
    result := new Color[PIXEL_COUNT];
    for y := 0 to HEIGHT
      invariant forall k :: IsCell(k) && CellY(k) > HEIGHT - 1 - y ==> result[k] == pixels[Mirror(Vertical, k)]
    {
      for x := 0 to WIDTH
        invariant forall k :: IsCell(k) && CellY(k) > HEIGHT - 1 - y ==> result[k] == pixels[Mirror(Vertical, k)]
        invariant forall k :: IsCell(k) && CellY(k) == HEIGHT - 1 - y && CellX(k) < x ==>
                    result[k] == pixels[Mirror(Vertical, k)]
      {
        CellIs(x, HEIGHT - 1 - y);
        result[IndexFor(x, HEIGHT - 1 - y)] := pixels[IndexFor(x, y)];
      }
    }
  }

  /** A column and a row name one cell, and its mirror images have the mirrored column or row. */
  lemma CellIs(x: int, y: int)
    requires OnCanvas(x, y)
    ensures Mirror(Horizontal, IndexFor(x, y)) == IndexFor(WIDTH - 1 - x, y)
    ensures Mirror(Vertical, IndexFor(x, y)) == IndexFor(x, HEIGHT - 1 - y)
    ensures forall k :: IsCell(k) && CellX(k) == x && CellY(k) == y ==> k == IndexFor(x, y)
  {
  }

  lemma MirrorIsInvolution(axis: Axis, k: int)
    requires IsCell(k)
    ensures IsCell(Mirror(axis, k)) && Mirror(axis, Mirror(axis, k)) == k
  {
  }

  lemma FlipIsInvolution(axis: Axis, p: Pixels)
    ensures Flipped(axis, Flipped(axis, p)) == p
  {
    forall k | IsCell(k) ensures Flipped(axis, Flipped(axis, p))[k] == p[k] { MirrorIsInvolution(axis, k); }
  }

  lemma FlipsCommute(p: Pixels)
    ensures Flipped(Horizontal, Flipped(Vertical, p)) == Flipped(Vertical, Flipped(Horizontal, p))
  {
    forall k | IsCell(k)
      ensures Flipped(Horizontal, Flipped(Vertical, p))[k] == Flipped(Vertical, Flipped(Horizontal, p))[k]
    {
      MirrorsCommute(k);
    }
  }

  lemma MirrorsCommute(k: int)
    requires IsCell(k)
    ensures IsCell(Mirror(Horizontal, k)) && IsCell(Mirror(Vertical, k))
    ensures Mirror(Horizontal, Mirror(Vertical, k)) == Mirror(Vertical, Mirror(Horizontal, k))
  {
  }

  /** The drawing with only the mirror pairs below `j` exchanged. */
  ghost function PartlyFlipped(axis: Axis, p: Pixels, j: nat): (q: Pixels)
    ensures forall k :: IsCell(k) ==> q[k] == if k < j || Mirror(axis, k) < j then p[Mirror(axis, k)] else p[k]
  {
    seq(PIXEL_COUNT, k requires 0 <= k < PIXEL_COUNT =>
      if k < j || Mirror(axis, k) < j then p[Mirror(axis, k)] else p[k])
  }

  /** One more pair is exchanged, unless its lower cell is its own mirror or was met before. */
  lemma PairIsExchanged(axis: Axis, p: Pixels, j: nat)
    requires j < PIXEL_COUNT
    ensures var q, m := PartlyFlipped(axis, p, j), Mirror(axis, j);
            && IsCell(m)
            && PartlyFlipped(axis, p, j + 1) == if j < m then q[j := q[m]][m := q[j]] else q
  {
    var q, r, m := PartlyFlipped(axis, p, j), PartlyFlipped(axis, p, j + 1), Mirror(axis, j);
    MirrorIsInvolution(axis, j);
    forall k | IsCell(k) && k != j && k != m ensures r[k] == q[k] {
      MirrorIsInvolution(axis, k);
      assert Mirror(axis, k) != j;
    }
  }

  lemma {:induction false} PartialFlipKeepsColours(axis: Axis, p: Pixels, j: nat)
    requires j <= PIXEL_COUNT
    ensures multiset(PartlyFlipped(axis, p, j)) == multiset(p)
  {
    if j == 0 {
      NothingFlipped(axis, p);
    } else {
      PartialFlipKeepsColours(axis, p, j - 1);
      PairIsExchanged(axis, p, j - 1);
    }
  }

  lemma NothingFlipped(axis: Axis, p: Pixels)
    ensures PartlyFlipped(axis, p, 0) == p
  {
    forall k | IsCell(k) ensures Mirror(axis, k) >= 0 { MirrorIsInvolution(axis, k); }
  }

  lemma FlipKeepsColours(axis: Axis, p: Pixels)
    ensures multiset(Flipped(axis, p)) == multiset(p)
  {
    PartialFlipKeepsColours(axis, p, PIXEL_COUNT);
    assert PartlyFlipped(axis, p, PIXEL_COUNT) == Flipped(axis, p);
  }

  // ----- filling commutes with flipping -----

  lemma AdjacencyMirrors(axis: Axis, j: int, k: int)
    requires Adjacent(j, k)
    ensures Adjacent(Mirror(axis, j), Mirror(axis, k))
  {
  }

  ghost function MirroredPath(axis: Axis, path: seq<int>): seq<int> {
    seq(|path|, i requires 0 <= i < |path| => Mirror(axis, path[i]))
  }

  lemma MirroredCellKeepsColour(axis: Axis, p: Pixels, k: int)
    requires IsCell(k)
    ensures IsCell(Mirror(axis, k)) && Flipped(axis, p)[Mirror(axis, k)] == p[k]
  {
    MirrorIsInvolution(axis, k);
  }

  lemma WalkMirrors(axis: Axis, p: Pixels, path: seq<int>)
    requires Walk(p, path)
    ensures Walk(Flipped(axis, p), MirroredPath(axis, path))
  {
    var image := MirroredPath(axis, path);
    forall k | k in image ensures IsCell(k) && Flipped(axis, p)[k] == p[path[0]] {
      var i :| 0 <= i < |image| && image[i] == k;
      assert path[i] in path;
      MirroredCellKeepsColour(axis, p, path[i]);
    }
    assert image[0] in image;
    forall i | 0 < i < |image| ensures Adjacent(image[i - 1], image[i]) {
      assert Adjacent(path[i - 1], path[i]);
      AdjacencyMirrors(axis, path[i - 1], path[i]);
    }
  }

  lemma ReachesFlips(axis: Axis, p: Pixels, from: int, to: int)
    requires Reaches(p, from, to)
    ensures Reaches(Flipped(axis, p), Mirror(axis, from), Mirror(axis, to))
  {
    var path :| WalkBetween(p, path, from, to);
    WalkMirrors(axis, p, path);
    assert WalkBetween(Flipped(axis, p), MirroredPath(axis, path), Mirror(axis, from), Mirror(axis, to));
  }

  /** Fill then flip is flip then fill at the mirrored start. */
  lemma FillCommutesWithFlip(axis: Axis, p: Pixels, start: int, replacement: Color)
    requires IsCell(start)
    ensures Flipped(axis, Filled(p, start, replacement)) == Filled(Flipped(axis, p), Mirror(axis, start), replacement)
  {
    var q := Flipped(axis, p);
    FlipIsInvolution(axis, p);
    MirrorIsInvolution(axis, start);
    forall k | IsCell(k)
      ensures Flipped(axis, Filled(p, start, replacement))[k] == Filled(q, Mirror(axis, start), replacement)[k]
    {
      MirrorIsInvolution(axis, k);
      if Reaches(p, start, Mirror(axis, k)) { ReachesFlips(axis, p, start, Mirror(axis, k)); }
      if Reaches(q, Mirror(axis, start), k) { ReachesFlips(axis, q, Mirror(axis, start), k); }
    }
  }

  // ----- painting a line commutes with flipping -----

  function MirrorPoint(axis: Axis, p: Point): Point {
    match axis
    case Horizontal => Point(WIDTH - 1 - p.x, p.y)
    case Vertical => Point(p.x, HEIGHT - 1 - p.y)
  }

  lemma MirroredIndex(axis: Axis, p: Point)
    requires OnCanvas(p.x, p.y)
    ensures var q := MirrorPoint(axis, p);
            OnCanvas(q.x, q.y) && IndexFor(q.x, q.y) == Mirror(axis, IndexFor(p.x, p.y))
  {
  }

  lemma MirroredLine(axis: Axis, a: Point, b: Point)
    ensures var line := IdealLine(a.x, a.y, b.x, b.y);
            var a', b' := MirrorPoint(axis, a), MirrorPoint(axis, b);
            var line' := IdealLine(a'.x, a'.y, b'.x, b'.y);
            |line'| == |line| && forall n :: 0 <= n < |line| ==> line'[n] == MirrorPoint(axis, line[n])
  {
    match axis
    case Horizontal => LineMirrorsX(a.x, a.y, b.x, b.y, WIDTH - 1);
    case Vertical => LineMirrorsY(a.x, a.y, b.x, b.y, HEIGHT - 1);
  }

  lemma CoverMirrors(axis: Axis, points: seq<Point>, mirrored: seq<Point>, k: int)
    requires forall p :: p in points ==> OnCanvas(p.x, p.y)
    requires |mirrored| == |points| && forall n :: 0 <= n < |points| ==> mirrored[n] == MirrorPoint(axis, points[n])
    requires IsCell(k)
    ensures Covers(points, Mirror(axis, k)) <==> Covers(mirrored, k)
  {
    MirrorIsInvolution(axis, k);
    forall n | 0 <= n < |points|
      ensures IndexFor(mirrored[n].x, mirrored[n].y) == k <==> IndexFor(points[n].x, points[n].y) == Mirror(axis, k)
    {
      assert points[n] in points;
      MirroredIndex(axis, points[n]);
      MirrorIsInvolution(axis, IndexFor(points[n].x, points[n].y));
    }
  }

  /** Draw then flip is flip then draw between the mirrored endpoints. */
  lemma LineCommutesWithFlip(axis: Axis, p: Pixels, a: Point, b: Point, value: Color)
    requires OnCanvas(a.x, a.y) && OnCanvas(b.x, b.y)
    ensures var a', b' := MirrorPoint(axis, a), MirrorPoint(axis, b);
            Flipped(axis, Drawn(p, IdealLine(a.x, a.y, b.x, b.y), value))
            == Drawn(Flipped(axis, p), IdealLine(a'.x, a'.y, b'.x, b'.y), value)
  {
    var a', b' := MirrorPoint(axis, a), MirrorPoint(axis, b);
    var line, line' := IdealLine(a.x, a.y, b.x, b.y), IdealLine(a'.x, a'.y, b'.x, b'.y);
    MirroredLine(axis, a, b);
    LineStaysOnCanvas(a.x, a.y, b.x, b.y);
    forall k | IsCell(k)
      ensures Flipped(axis, Drawn(p, line, value))[k] == Drawn(Flipped(axis, p), line', value)[k]
    {
      MirrorIsInvolution(axis, k);
      CoverMirrors(axis, line, line', k);
    }
  }
}
