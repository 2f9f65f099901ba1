/** The 16x16 drawing surface shared by the editor, the store and the renderers. */
module Canvas {
  const WIDTH: int := 16
  const HEIGHT: int := 16
  const PIXEL_COUNT: int := 256
  const COLOR_COUNT: int := 16

  /** A palette index. */
  type Color = c: int | 0 <= c < COLOR_COUNT

  /** A whole drawing, row by row. */
  type Pixels = p: seq<Color> | |p| == PIXEL_COUNT witness seq(PIXEL_COUNT, _ => 0)

  predicate OnCanvas(x: int, y: int) {
    0 <= x < WIDTH && 0 <= y < HEIGHT
  }

  predicate IsCell(k: int) {
    0 <= k < PIXEL_COUNT
  }

  function IndexFor(x: int, y: int): (k: int)
    ensures OnCanvas(x, y) ==> IsCell(k) && CellX(k) == x && CellY(k) == y
  {
    y * 16 + x
  }

  function CellX(k: int): int { k % 16 }

  function CellY(k: int): int { k / 16 }

  function Abs(n: int): nat { if n < 0 then -n else n }

  function Max(a: int, b: int): int { if a < b then b else a }

  function Min(a: int, b: int): int { if a < b then a else b }
}
