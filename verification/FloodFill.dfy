/** In-place flood fill with an explicit stack, against connectivity of equally coloured cells. */
module FloodFill {
  import opened Canvas

  /** Cells sharing an edge. */
  ghost predicate Adjacent(j: int, k: int) {
    && IsCell(j) && IsCell(k)
    && Abs(CellX(j) - CellX(k)) + Abs(CellY(j) - CellY(k)) == 1
  }

  /** A walk over cells of one colour, each step crossing an edge. */
  ghost predicate Walk(p: Pixels, path: seq<int>) {
    && |path| > 0 && IsCell(path[0])
    && (forall k :: k in path ==> IsCell(k))
    && (forall k :: k in path ==> p[k] == p[path[0]])
    && (forall i :: 0 < i < |path| ==> Adjacent(path[i - 1], path[i]))
  }

  ghost predicate WalkBetween(p: Pixels, path: seq<int>, from: int, to: int) {
    Walk(p, path) && path[0] == from && path[|path| - 1] == to
  }

  /** `to` lies in the 4-connected component of `from`. */
  ghost predicate Reaches(p: Pixels, from: int, to: int) {
    exists path: seq<int> :: WalkBetween(p, path, from, to)
  }

  /** The drawing in which exactly the component of `start` has been recoloured. */
  ghost function Filled(p: Pixels, start: int, replacement: Color): (q: Pixels)
    ensures forall k :: IsCell(k) ==> q[k] == if Reaches(p, start, k) then replacement else p[k]
  {
    seq(PIXEL_COUNT, k requires 0 <= k < PIXEL_COUNT => if Reaches(p, start, k) then replacement else p[k])
  }

  lemma ReachesSelf(p: Pixels, k: int)
    requires IsCell(k)
    ensures Reaches(p, k, k)
  {
    assert WalkBetween(p, [k], k, k);
  }

  lemma ReachesStep(p: Pixels, from: int, j: int, k: int)
    requires Reaches(p, from, j) && Adjacent(j, k) && p[j] == p[k]
    ensures Reaches(p, from, k)
  {
    var path :| WalkBetween(p, path, from, j);
    assert WalkBetween(p, path + [k], from, k);
  }

  /** A set of cells that holds the start and is closed under equally coloured neighbours holds the whole component. */
  lemma {:induction false} ComponentIsLeast(p: Pixels, cells: set<int>, path: seq<int>)
    requires Walk(p, path) && path[0] in cells
    requires forall j, k :: j in cells && Adjacent(j, k) && p[k] == p[path[0]] ==> k in cells
    ensures path[|path| - 1] in cells
    decreases |path|
  {
    if |path| > 1 {
      var init := path[..|path| - 1];
      assert Walk(p, init);
      ComponentIsLeast(p, cells, init);
      assert Adjacent(path[|path| - 2], path[|path| - 1]);
    }
  }

  /** The neighbour list in the order the loop builds it. */
  function Neighbours(current: int): (ns: seq<int>)
    requires IsCell(current)
    ensures forall k :: k in ns <==> Adjacent(current, k)
  {
    var x, y := CellX(current), CellY(current);
    (if x > 0 then [current - 1] else [])
    + (if x < WIDTH - 1 then [current + 1] else [])
    + (if y > 0 then [current - WIDTH] else [])
    + (if y < HEIGHT - 1 then [current + WIDTH] else [])
  }

  /** Cells still showing `c`. */
  ghost function Remaining(p: seq<Color>, c: Color): nat {
    multiset(p)[c]
  }

  /** The drawing after every cell of `cells` showing `target` has been painted. */
  ghost predicate Painted(p: Pixels, q: seq<Color>, cells: seq<int>, target: Color, replacement: Color) {
    && |q| == PIXEL_COUNT
    && forall k :: IsCell(k) ==> q[k] == if k in cells && p[k] == target then replacement else p[k]
  }

  /** One neighbour list is scanned: unfilled cells of the target colour are painted and pushed. */
  method VisitNeighbours(pixels: array<Color>, target: Color, replacement: Color, neighbours: seq<int>,
      pending: seq<int>)
    returns (pushed: seq<int>)
    requires pixels.Length == PIXEL_COUNT && target != replacement
    requires forall k :: k in neighbours ==> IsCell(k)
    modifies pixels
    ensures Painted(old(pixels[..]), pixels[..], neighbours, target, replacement)
    ensures forall k :: k in pending ==> k in pushed
    ensures forall k :: k in pushed && k !in pending ==> k in neighbours && old(pixels[..])[k] == target
    ensures forall k :: k in neighbours && pixels[..][k] != old(pixels[..])[k] ==> k in pushed
    ensures Remaining(pixels[..], target) + |pushed| == Remaining(old(pixels[..]), target) + |pending|
  {
    ghost var p: Pixels := pixels[..];
    pushed := pending;
    for i := 0 to |neighbours|
      invariant Painted(p, pixels[..], neighbours[..i], target, replacement)
      invariant forall k :: k in pending ==> k in pushed
      invariant forall k :: k in pushed && k !in pending ==> k in neighbours && p[k] == target
      invariant forall k :: k in neighbours[..i] && pixels[..][k] != p[k] ==> k in pushed
      invariant Remaining(pixels[..], target) + |pushed| == Remaining(p, target) + |pending|
    {
      var next := neighbours[i];
      assert next in neighbours;
      assert neighbours[..i + 1] == neighbours[..i] + [next];
      if pixels[next] == target {
        ghost var before := pixels[..];
        assert before[next] == p[next];
        pixels[next] := replacement;
        assert pixels[..] == before[next := replacement];
        pushed := pushed + [next];
      }
    }
    assert neighbours[..|neighbours|] == neighbours;
  }

  /**
   * What holds between pops: changed cells were reachable target cells, and those off the stack have no target
   * neighbour left.
   */
  ghost predicate Filling(p: Pixels, q: seq<Color>, pending: seq<int>, start: int, target: Color, replacement: Color) {
    && IsCell(start) && |q| == PIXEL_COUNT && p[start] == target && target != replacement
    && q[start] == replacement
    && (forall k :: k in pending ==> IsCell(k) && q[k] != p[k])
    && (forall k :: IsCell(k) && q[k] != p[k] ==> p[k] == target && q[k] == replacement && Reaches(p, start, k))
    && (forall j, k :: Adjacent(j, k) && q[j] != p[j] && j !in pending ==> q[k] != target)
  }

  lemma FillStep(p: Pixels, q: Pixels, pending: seq<int>, start: int, target: Color, replacement: Color,
                 q': seq<Color>, pushed: seq<int>)
    requires |pending| > 0 && Filling(p, q, pending, start, target, replacement)
    requires var current, rest := pending[|pending| - 1], pending[..|pending| - 1];
             && Painted(q, q', Neighbours(current), target, replacement)
             && (forall k :: k in rest ==> k in pushed)
             && (forall k :: k in pushed && k !in rest ==> k in Neighbours(current) && q[k] == target)
             && (forall k :: k in Neighbours(current) && q'[k] != q[k] ==> k in pushed)
    ensures Filling(p, q', pushed, start, target, replacement)
  {
    var current, rest := pending[|pending| - 1], pending[..|pending| - 1];
    assert pending == rest + [current];
    forall k | IsCell(k) && q'[k] != p[k]
      ensures p[k] == target && q'[k] == replacement && Reaches(p, start, k)
    {
      if q[k] == p[k] {
        ReachesStep(p, start, current, k);
      }
    }
    forall j, k | Adjacent(j, k) && q'[j] != p[j] && j !in pushed
      ensures q'[k] != target
    {
      assert q[j] == q'[j];
      if j != current { assert j !in pending; }
    }
  }

  /**
   * Recolours exactly the component of the start cell. Every pop lowers `Remaining + |pending|` by exactly one,
   * so the loop pops each cell of the component once.
   */
  method Fill(pixels: array<Color>, x: int, y: int, replacement: Color) returns (changed: bool, ghost pops: nat)
    requires pixels.Length == PIXEL_COUNT && OnCanvas(x, y)
    modifies pixels
    ensures changed <==> old(pixels[IndexFor(x, y)]) != replacement
    ensures pixels[..] == Filled(old(pixels[..]), IndexFor(x, y), replacement)
    ensures var target := old(pixels[IndexFor(x, y)]);
            changed ==> Remaining(pixels[..], target) + pops == Remaining(old(pixels[..]), target)
  {
    var start := IndexFor(x, y);
    var target := pixels[start];
    ghost var p: Pixels := pixels[..];
    ReachesSelf(p, start);
    if target == replacement {
      FillWithSameColour(p, start);
      return false, 0;
    }
    var pending := [start];
    pixels[start] := replacement;
    assert pixels[..] == p[start := replacement];
    pops := 0;
    while |pending| > 0
      invariant Filling(p, pixels[..], pending, start, target, replacement)
      invariant Remaining(pixels[..], target) + |pending| + pops == Remaining(p, target)
      decreases Remaining(pixels[..], target) + |pending|
    {
      var current := pending[|pending| - 1];
      ghost var stack, q: Pixels := pending, pixels[..];
      pending := pending[..|pending| - 1];
      pending := VisitNeighbours(pixels, target, replacement, Neighbours(current), pending);
      FillStep(p, q, stack, start, target, replacement, pixels[..], pending);
      pops := pops + 1;
    }
    FillIsComplete(p, pixels[..], start, target, replacement);
    return true, pops;
  }

  lemma FillWithSameColour(p: Pixels, start: int)
    requires IsCell(start)
    ensures Filled(p, start, p[start]) == p
  {
    forall k | IsCell(k) ensures Filled(p, start, p[start])[k] == p[k] {
      if Reaches(p, start, k) {
        var path :| WalkBetween(p, path, start, k);
        assert p[path[|path| - 1]] == p[path[0]];
      }
    }
  }

  /** A drawing that changed only reachable cells and left no target cell beside a changed one is the filled drawing. */
  lemma FillIsComplete(p: Pixels, q: seq<Color>, start: int, target: Color, replacement: Color)
    requires IsCell(start) && |q| == PIXEL_COUNT && p[start] == target && target != replacement
    requires q[start] == replacement
    requires forall k :: IsCell(k) && q[k] != p[k] ==> q[k] == replacement && p[k] == target && Reaches(p, start, k)
    requires forall j, k :: Adjacent(j, k) && q[j] != p[j] ==> q[k] != target
    ensures q == Filled(p, start, replacement)
  {
    var changed := set k | 0 <= k < PIXEL_COUNT && q[k] != p[k];
    forall k | IsCell(k) ensures q[k] == Filled(p, start, replacement)[k] {
      if Reaches(p, start, k) {
        var path :| WalkBetween(p, path, start, k);
        ComponentIsLeast(p, changed, path);
      }
    }
  }
}
