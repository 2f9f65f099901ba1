/** Painting postcards into image buffers, against closed-form pictures. */
module Rendering {
  import opened Wrappers
  import opened Canvas
  import opened Palettes
  import opened Sequences

  const POSTCARD_SCALE: int := 16
  const POSTCARD_SIZE: int := 256
  const WEEKLY_MAX: int := 64
  const WEEKLY_SCALE: int := 4
  const WEEKLY_SIZE: int := 512

  /** An image buffer, addressed by column and row. */
  type Image = array2<int>

  /** What the mosaic needs of a postcard. */
  datatype Item = Item(pixels: Pixels, paletteId: string, paletteVersion: int)

  /** Every palette has its sixteen colours. */
  predicate Complete(catalog: seq<Palette>) {
    forall i :: 0 <= i < |catalog| ==> |catalog[i].colors| == COLOR_COUNT
  }

  type Colors = c: seq<int> | |c| == COLOR_COUNT witness seq(COLOR_COUNT, _ => 0)

  function ColorsOf(catalog: seq<Palette>, id: string, version: int): Option<Colors>
    requires Complete(catalog)
  {
    var p := PaletteFrom(catalog, id, version);
    if p.None? then None
    else
      assert exists i :: 0 <= i < |catalog| && catalog[i] == p.value;
      Some(p.value.colors)
  }

  /** One colour of a palette, looked up anew for each index; refused for an unknown palette or index. */
  function PaletteColor(catalog: seq<Palette>, id: string, version: int, index: int): Option<int> {
    match PaletteFrom(catalog, id, version)
    case None => None
    case Some(p) => if 0 <= index < COLOR_COUNT && index < |p.colors| then Some(p.colors[index]) else None
  }

  /** Resolves the sixteen colours one by one and gives up at the first that fails. */
  method PaletteColors(catalog: seq<Palette>, id: string, version: int) returns (colors: Option<Colors>)
    requires Complete(catalog)
    ensures colors.Some? <==> exists p :: p in catalog && p.id == id && p.version == version
    ensures colors.Some? ==> forall index :: 0 <= index < COLOR_COUNT ==>
              PaletteColor(catalog, id, version, index) == Some(colors.value[index])
    ensures colors == ColorsOf(catalog, id, version)
  {
    var resolved: seq<int> := [];
    for index := 0 to COLOR_COUNT
      invariant |resolved| == index && (index > 0 ==> Listed(catalog, id, version))
      invariant forall i :: 0 <= i < index ==> PaletteColor(catalog, id, version, i) == Some(resolved[i])
    {
      var value := PaletteColor(catalog, id, version, index);
      if value.None? {
        ListedHasColor(catalog, id, version, index);
        return None;
      }
      resolved := resolved + [value.value];
    }
    assert resolved == ColorsOf(catalog, id, version).value;
    return Some(resolved);
  }

  /** A listed palette of a complete catalog has a colour for each of the sixteen indices. */
  lemma ListedHasColor(catalog: seq<Palette>, id: string, version: int, index: int)
    requires Complete(catalog) && 0 <= index < COLOR_COUNT
    ensures Listed(catalog, id, version) <==> PaletteColor(catalog, id, version, index).Some?
    ensures Listed(catalog, id, version) <==> exists p :: p in catalog && p.id == id && p.version == version
  {
    var found := PaletteFrom(catalog, id, version);
    if found.Some? { assert exists i :: 0 <= i < |catalog| && catalog[i] == found.value; }
  }

  predicate InBlock(x: int, y: int, x0: int, y0: int, size: int) {
    x0 <= x < x0 + size && y0 <= y < y0 + size
  }

  /** The two innermost painting loops. */
  method FillBlock(image: Image, x0: int, y0: int, size: int, fill: int)
    requires 0 <= x0 && 0 <= y0 && 0 <= size && x0 + size <= image.Length0 && y0 + size <= image.Length1
    modifies image
    ensures forall x, y :: 0 <= x < image.Length0 && 0 <= y < image.Length1 ==>
              image[x, y] == if InBlock(x, y, x0, y0, size) then fill else old(image[x, y])
  {
    for y := y0 to y0 + size
      invariant forall i, j :: 0 <= i < image.Length0 && 0 <= j < image.Length1 ==>
                  image[i, j] == if InBlock(i, j, x0, y0, size) && j < y then fill else old(image[i, j])
    {
      for x := x0 to x0 + size
        invariant forall i, j :: 0 <= i < image.Length0 && 0 <= j < image.Length1 ==>
                    image[i, j] == if InBlock(i, j, x0, y0, size) && (j < y || (j == y && i < x)) then fill
                                   else old(image[i, j])
      {
        image[x, y] := fill;
      }
    }
  }

  // ----- one postcard -----

  /** The postcard pixel an image point shows. */
  function PixelAt(x: int, y: int): int {
    y / 16 * 16 + x / 16
  }

  lemma PostcardBlock(index: int, x: int, y: int)
    requires IsCell(index) && 0 <= x < POSTCARD_SIZE && 0 <= y < POSTCARD_SIZE
    ensures IsCell(PixelAt(x, y))
    ensures InBlock(x, y, index % 16 * 16, index / 16 * 16, 16) <==> PixelAt(x, y) == index
  {
  }

  /** Every point of the image has the palette colour of its pixel. */
  ghost predicate ShowsPostcard(image: Image, colors: Colors, pixels: Pixels)
    reads image
  {
    && image.Length0 == POSTCARD_SIZE && image.Length1 == POSTCARD_SIZE
    && forall x, y :: 0 <= x < POSTCARD_SIZE && 0 <= y < POSTCARD_SIZE ==>
         IsCell(PixelAt(x, y)) && image[x, y] == colors[pixels[PixelAt(x, y)]]
  }

  method RenderPostcard(catalog: seq<Palette>, pixels: Pixels, id: string, version: int) returns (result: Option<Image>)
    requires Complete(catalog)
    ensures result.Some? <==> Listed(catalog, id, version)
    ensures result.Some? ==>
              fresh(result.value) && ShowsPostcard(result.value, ColorsOf(catalog, id, version).value, pixels)
  {
    var colors := PaletteColors(catalog, id, version);
    if colors.None? { return None; }
    var image := new int[POSTCARD_SIZE, POSTCARD_SIZE];
    for index := 0 to PIXEL_COUNT
      invariant forall x, y :: 0 <= x < POSTCARD_SIZE && 0 <= y < POSTCARD_SIZE && 0 <= PixelAt(x, y) < index ==>
                  image[x, y] == colors.value[pixels[PixelAt(x, y)]]
    {
      FillBlock(image, index % 16 * POSTCARD_SCALE, index / 16 * POSTCARD_SCALE, POSTCARD_SCALE,
                colors.value[pixels[index]]);
      forall x, y | 0 <= x < POSTCARD_SIZE && 0 <= y < POSTCARD_SIZE
        ensures InBlock(x, y, index % 16 * 16, index / 16 * 16, 16) <==> PixelAt(x, y) == index
      {
        PostcardBlock(index, x, y);
      }
    }
    forall x, y | 0 <= x < POSTCARD_SIZE && 0 <= y < POSTCARD_SIZE ensures IsCell(PixelAt(x, y)) {
      PostcardBlock(0, x, y);
    }
    return Some(image);
  }

  // ----- the weekly mosaic -----

  function TileAt(x: int, y: int): int {
    y / 64 * 8 + x / 64
  }

  function TilePixelAt(x: int, y: int): int {
    y % 64 / 4 * 16 + x % 64 / 4
  }

  predicate AllListed(catalog: seq<Palette>, items: seq<Item>) {
    forall t :: 0 <= t < |items| ==> Listed(catalog, items[t].paletteId, items[t].paletteVersion)
  }

  /** The postcards that get a tile, the first 64, have listed palettes. */
  predicate ShownAreListed(catalog: seq<Palette>, items: seq<Item>) {
    forall t :: 0 <= t < |items| && t < 64 ==> Listed(catalog, items[t].paletteId, items[t].paletteVersion)
  }

  lemma TilesInRange(x: int, y: int)
    requires 0 <= x < WEEKLY_SIZE && 0 <= y < WEEKLY_SIZE
    ensures 0 <= TileAt(x, y) < WEEKLY_MAX && IsCell(TilePixelAt(x, y))
  {
  }

  /** Left edge and top edge of the block that shows pixel `k` of tile `t`. */
  function BlockLeft(t: int, k: int): int { t % 8 * 64 + k % 16 * 4 }

  function BlockTop(t: int, k: int): int { t / 8 * 64 + k / 16 * 4 }

  /** Blocks of different tiles or pixels never overlap, and together they cover the image. */
  lemma MosaicBlock(t: int, k: int, x: int, y: int)
    requires 0 <= t < WEEKLY_MAX && IsCell(k) && 0 <= x < WEEKLY_SIZE && 0 <= y < WEEKLY_SIZE
    ensures InBlock(x, y, BlockLeft(t, k), BlockTop(t, k), 4) <==> TileAt(x, y) == t && TilePixelAt(x, y) == k
  {
    AxisBlock(t % 8, k % 16, x);
    AxisBlock(t / 8, k / 16, y);
    TilesInRange(x, y);
  }

  lemma AxisBlock(tile: int, cell: int, x: int)
    requires 0 <= tile < 8 && 0 <= cell < 16 && 0 <= x < WEEKLY_SIZE
    ensures tile * 64 + cell * 4 <= x < tile * 64 + cell * 4 + 4 <==> x / 64 == tile && x % 64 / 4 == cell
  {
  }

  /** The colour of an image point inside the tile that shows `item`. */
  function Shade(catalog: seq<Palette>, item: Item, x: int, y: int): int
    requires Complete(catalog) && Listed(catalog, item.paletteId, item.paletteVersion)
    requires 0 <= x < WEEKLY_SIZE && 0 <= y < WEEKLY_SIZE
  {
    TilesInRange(x, y);
    ColorsOf(catalog, item.paletteId, item.paletteVersion).value[item.pixels[TilePixelAt(x, y)]]
  }

  /** The mosaic in closed form: tile by tile one postcard in its own palette, then background. */
  function MosaicAt(catalog: seq<Palette>, items: seq<Item>, background: int, x: int, y: int): int
    requires Complete(catalog) && ShownAreListed(catalog, items)
    requires 0 <= x < WEEKLY_SIZE && 0 <= y < WEEKLY_SIZE
  {
    TilesInRange(x, y);
    if TileAt(x, y) < |items| then Shade(catalog, items[TileAt(x, y)], x, y) else background
  }

  /** Paints the 256 blocks of one tile. */
  method PaintTile(image: Image, t: int, pixels: Pixels, colors: Colors)
    requires 0 <= t < WEEKLY_MAX && image.Length0 == WEEKLY_SIZE && image.Length1 == WEEKLY_SIZE
    modifies image
    ensures forall x, y :: 0 <= x < WEEKLY_SIZE && 0 <= y < WEEKLY_SIZE ==>
              IsCell(TilePixelAt(x, y))
              && image[x, y] == if TileAt(x, y) == t then colors[pixels[TilePixelAt(x, y)]] else old(image[x, y])
  {
    forall x, y | 0 <= x < WEEKLY_SIZE && 0 <= y < WEEKLY_SIZE ensures IsCell(TilePixelAt(x, y)) { TilesInRange(x, y); }
    for k := 0 to PIXEL_COUNT
      invariant forall x, y :: 0 <= x < WEEKLY_SIZE && 0 <= y < WEEKLY_SIZE ==>
                  image[x, y] == if TileAt(x, y) == t && TilePixelAt(x, y) < k then colors[pixels[TilePixelAt(x, y)]]
                                 else old(image[x, y])
    {
      MosaicBlockFits(t, k);
      FillBlock(image, BlockLeft(t, k), BlockTop(t, k), WEEKLY_SCALE, colors[pixels[k]]);
      forall x, y | 0 <= x < WEEKLY_SIZE && 0 <= y < WEEKLY_SIZE
        ensures InBlock(x, y, BlockLeft(t, k), BlockTop(t, k), 4) <==> TileAt(x, y) == t && TilePixelAt(x, y) == k
      {
        MosaicBlock(t, k, x, y);
      }
    }
  }

  lemma MosaicBlockFits(t: int, k: int)
    requires 0 <= t < WEEKLY_MAX && IsCell(k)
    ensures 0 <= BlockLeft(t, k) && BlockLeft(t, k) + WEEKLY_SCALE <= WEEKLY_SIZE
    ensures 0 <= BlockTop(t, k) && BlockTop(t, k) + WEEKLY_SCALE <= WEEKLY_SIZE
  {
  }

  /** Every point shows the tile it lies in, or the background where there is no postcard for it. */
  ghost predicate ShowsMosaic(image: Image, catalog: seq<Palette>, items: seq<Item>, background: int)
    requires Complete(catalog)
    reads image
  {
    && image.Length0 == 512 && image.Length1 == 512 && ShownAreListed(catalog, items)
    && forall x, y :: 0 <= x < 512 && 0 <= y < 512 ==>
         (TilesInRange(x, y);
          image[x, y] == if TileAt(x, y) < |items| then Shade(catalog, items[TileAt(x, y)], x, y) else background)
  }

  /**
   * Paints the first 64 postcards; an unlisted palette among them refuses the whole image, later ones are not
   * looked at.
   */
  method RenderMosaic(catalog: seq<Palette>, items: seq<Item>, background: int) returns (result: Option<Image>)
    requires Complete(catalog)
    ensures result.Some? <==> forall t :: 0 <= t < |items| && t < 64 ==>
                                Listed(catalog, items[t].paletteId, items[t].paletteVersion)
    ensures result.Some? ==> fresh(result.value) && ShowsMosaic(result.value, catalog, items, background)
  {
    var image := new int[WEEKLY_SIZE, WEEKLY_SIZE];
    FillBlock(image, 0, 0, WEEKLY_SIZE, background);
    forall x, y | 0 <= x < WEEKLY_SIZE && 0 <= y < WEEKLY_SIZE ensures TileAt(x, y) >= 0 { TilesInRange(x, y); }
    var t := 0;
    while t < |items|
      invariant 0 <= t <= |items| && t <= WEEKLY_MAX && AllListed(catalog, items[..t])
      invariant forall x, y :: 0 <= x < WEEKLY_SIZE && 0 <= y < WEEKLY_SIZE ==>
                  image[x, y] == MosaicAt(catalog, items[..t], background, x, y)
    {
      if t >= WEEKLY_MAX { break; }
      assert items[..t + 1] == items[..t] + [items[t]];
      var colors := PaletteColors(catalog, items[t].paletteId, items[t].paletteVersion);
      if colors.None? { return None; }
      assert AllListed(catalog, items[..t + 1]);
      PaintTile(image, t, items[t].pixels, colors.value);
      forall x, y | 0 <= x < WEEKLY_SIZE && 0 <= y < WEEKLY_SIZE
        ensures image[x, y] == MosaicAt(catalog, items[..t + 1], background, x, y)
      {
        OneMoreTile(catalog, items, t, background, x, y);
      }
      t := t + 1;
    }
    forall i | 0 <= i < |items| && i < 64 ensures Listed(catalog, items[i].paletteId, items[i].paletteVersion) {
      assert items[..t][i] == items[i];
    }
    forall x, y | 0 <= x < WEEKLY_SIZE && 0 <= y < WEEKLY_SIZE
      ensures MosaicAt(catalog, items[..t], background, x, y) == MosaicAt(catalog, items, background, x, y)
    {
      LaterItemsAreNotShown(catalog, items, t, background, x, y);
    }
    return Some(image);
  }

  /** The weekly mosaic of the shipped catalog, on the first colour of the default palette: black. */
  method RenderWeekly(items: seq<Item>) returns (result: Option<Image>)
    ensures result.Some? <==> forall t :: 0 <= t < |items| && t < 64 ==>
                                Listed(CATALOG, items[t].paletteId, items[t].paletteVersion)
    ensures Complete(CATALOG)
    ensures result.Some? ==> fresh(result.value) && ShowsMosaic(result.value, CATALOG, items, 0x000000)
  {
    CatalogIsComplete();
    FirstVgaColor();
    result := RenderMosaic(CATALOG, items, PaletteColor(CATALOG, DEFAULT_PALETTE_ID, DEFAULT_PALETTE_VERSION, 0).value);
  }

  lemma FirstVgaColor()
    ensures PaletteColor(CATALOG, DEFAULT_PALETTE_ID, DEFAULT_PALETTE_VERSION, 0) == Some(0x000000)
  {
    assert CATALOG[0].id == "vga16" && CATALOG[0].colors[0] == 0;
  }

  lemma LaterItemsAreNotShown(catalog: seq<Palette>, items: seq<Item>, t: nat, background: int, x: int, y: int)
    requires Complete(catalog) && ShownAreListed(catalog, items) && t <= |items| && (t < |items| ==> t >= WEEKLY_MAX)
    requires ShownAreListed(catalog, items[..t]) && 0 <= x < WEEKLY_SIZE && 0 <= y < WEEKLY_SIZE
    ensures MosaicAt(catalog, items[..t], background, x, y) == MosaicAt(catalog, items, background, x, y)
  {
    TilesInRange(x, y);
  }

  lemma OneMoreTile(catalog: seq<Palette>, items: seq<Item>, t: nat, background: int, x: int, y: int)
    requires t < |items| && Complete(catalog) && AllListed(catalog, items[..t]) && AllListed(catalog, items[..t + 1])
    requires 0 <= x < WEEKLY_SIZE && 0 <= y < WEEKLY_SIZE
    ensures Listed(catalog, items[t].paletteId, items[t].paletteVersion)
    ensures MosaicAt(catalog, items[..t + 1], background, x, y)
         == if TileAt(x, y) == t then Shade(catalog, items[t], x, y)
            else MosaicAt(catalog, items[..t], background, x, y)
  {
    assert items[..t + 1][t] == items[t];
    TilesInRange(x, y);
    if TileAt(x, y) < t { assert items[..t + 1][TileAt(x, y)] == items[..t][TileAt(x, y)]; }
  }

  // ----- reading postcards back from an image -----

  /** Position of a colour in a palette. */
  function IndexOf(colors: seq<int>, color: int): (i: nat)
    ensures i <= |colors|
    ensures i < |colors| ==> colors[i] == color
  {
    if colors == [] then 0 else if colors[0] == color then 0 else 1 + IndexOf(colors[1..], color)
  }

  lemma {:induction false} IndexOfAt(colors: seq<int>, i: nat)
    requires Distinct(colors) && i < |colors|
    ensures IndexOf(colors, colors[i]) == i
    decreases |colors|
  {
    if i > 0 {
      assert colors[i] == colors[1..][i - 1];
      IndexOfAt(colors[1..], i - 1);
    }
  }

  /** Any one point of a pixel's 16x16 block tells the pixel, if the palette's colours differ. */
  lemma SamplingRecoversPostcard(colors: Colors, pixels: Pixels, k: int, dx: int, dy: int)
    requires Distinct(colors) && IsCell(k) && 0 <= dx < 16 && 0 <= dy < 16
    ensures var x, y := k % 16 * 16 + dx, k / 16 * 16 + dy;
            && 0 <= x < POSTCARD_SIZE && 0 <= y < POSTCARD_SIZE && IsCell(PixelAt(x, y))
            && IndexOf(colors, colors[pixels[PixelAt(x, y)]]) == pixels[k]
  {
    SamplePoint(k, dx, dy);
    IndexOfAt(colors, pixels[k]);
  }

  lemma SamplePoint(k: int, dx: int, dy: int)
    requires IsCell(k) && 0 <= dx < 16 && 0 <= dy < 16
    ensures var x, y := k % 16 * 16 + dx, k / 16 * 16 + dy;
            0 <= x < POSTCARD_SIZE && 0 <= y < POSTCARD_SIZE && PixelAt(x, y) == k
  {
    var column, row := k % 16, k / 16;
    assert (column * 16 + dx) / 16 == column && (row * 16 + dy) / 16 == row;
  }

  /** And any one point of a 4x4 block of a mosaic tile tells that pixel of that postcard. */
  lemma SamplingRecoversTile(catalog: seq<Palette>, items: seq<Item>, background: int, t: int, k: int, dx: int, dy: int)
    requires Complete(catalog) && ShownAreListed(catalog, items)
    requires 0 <= t < |items| && t < 64 && IsCell(k) && 0 <= dx < 4 && 0 <= dy < 4
    requires Distinct(ColorsOf(catalog, items[t].paletteId, items[t].paletteVersion).value)
    ensures var x, y := t % 8 * 64 + k % 16 * 4 + dx, t / 8 * 64 + k / 16 * 4 + dy;
            && 0 <= x < 512 && 0 <= y < 512
            && var colors := ColorsOf(catalog, items[t].paletteId, items[t].paletteVersion).value;
               IndexOf(colors, MosaicAt(catalog, items, background, x, y)) == items[t].pixels[k]
  {
    TileSamplePoint(t, k, dx, dy);
    IndexOfAt(ColorsOf(catalog, items[t].paletteId, items[t].paletteVersion).value, items[t].pixels[k]);
  }

  lemma TileSamplePoint(t: int, k: int, dx: int, dy: int)
    requires 0 <= t < WEEKLY_MAX && IsCell(k) && 0 <= dx < 4 && 0 <= dy < 4
    ensures var x, y := BlockLeft(t, k) + dx, BlockTop(t, k) + dy;
            0 <= x < WEEKLY_SIZE && 0 <= y < WEEKLY_SIZE && TileAt(x, y) == t && TilePixelAt(x, y) == k
  {
    AxisPoint(t % 8, k % 16, dx);
    AxisPoint(t / 8, k / 16, dy);
  }

  lemma AxisPoint(tile: int, cell: int, d: int)
    requires 0 <= tile < 8 && 0 <= cell < 16 && 0 <= d < 4
    ensures var x := tile * 64 + cell * 4 + d;
            0 <= x < WEEKLY_SIZE && x / 64 == tile && x % 64 / 4 == cell
  {
    AxisBlock(tile, cell, tile * 64 + cell * 4 + d);
  }

  // ----- the round trip through an image buffer -----

  /**
   * One point per 4x4 block of a painted mosaic tells every pixel of every postcard on it: the first 64, in rows of
   * eight tiles of 64x64 points. The rest of the image is background.
   */
  lemma RenderedMosaicReadsBack(image: Image, catalog: seq<Palette>, items: seq<Item>, background: int, t: int, k: int)
    requires Complete(catalog) && ShowsMosaic(image, catalog, items, background)
    requires 0 <= t < 64 && 0 <= k < 256
    ensures var x, y := t % 8 * 64 + k % 16 * 4, t / 8 * 64 + k / 16 * 4;
            && 0 <= x < 512 && 0 <= y < 512
            && (t >= |items| ==> image[x, y] == background)
            && (t < |items| ==>
                  var colors := ColorsOf(catalog, items[t].paletteId, items[t].paletteVersion).value;
                  && image[x, y] == colors[items[t].pixels[k]]
                  && (Distinct(colors) ==> IndexOf(colors, image[x, y]) == items[t].pixels[k]))
  {
    TileSamplePoint(t, k, 0, 0);
    if t < |items| {
      var colors := ColorsOf(catalog, items[t].paletteId, items[t].paletteVersion).value;
      if Distinct(colors) { IndexOfAt(colors, items[t].pixels[k]); }
    }
  }

  /** The pixel an image holds at a cell: one point of its block, looked up in the palette. */
  function ReadPixel(image: Image, colors: seq<int>, k: int): nat
    requires image.Length0 == POSTCARD_SIZE && image.Length1 == POSTCARD_SIZE && IsCell(k)
    reads image
  {
    IndexOf(colors, image[k % 16 * 16, k / 16 * 16])
  }

  function ReadBack(image: Image, colors: seq<int>): (pixels: seq<nat>)
    requires image.Length0 == POSTCARD_SIZE && image.Length1 == POSTCARD_SIZE
    reads image
    ensures |pixels| == PIXEL_COUNT && forall k :: IsCell(k) ==> pixels[k] == ReadPixel(image, colors, k)
  {
    seq(PIXEL_COUNT, k requires 0 <= k < PIXEL_COUNT && image.Length0 == POSTCARD_SIZE && image.Length1 == POSTCARD_SIZE
      reads image => ReadPixel(image, colors, k))
  }

  /** Reading back an image that shows a postcard gives its pixels, if the palette's colours differ. */
  lemma RenderedPostcardReadsBack(image: Image, colors: Colors, pixels: Pixels)
    requires Distinct(colors) && ShowsPostcard(image, colors, pixels)
    ensures ReadBack(image, colors) == pixels
  {
    forall k: nat | IsCell(k) ensures ReadPixel(image, colors, k) == pixels[k] {
      SamplingRecoversPostcard(colors, pixels, k, 0, 0);
    }
  }

  lemma CatalogIsComplete()
    ensures Complete(CATALOG)
  {
    forall i | 0 <= i < |CATALOG| ensures |CATALOG[i].colors| == COLOR_COUNT { ColorsAreDistinct(CATALOG[i]); }
  }

  /** Two images alike in every point, each showing a postcard in one palette of the real catalog, show one postcard. */
  lemma ImageDeterminesPixels(a: Image, b: Image, id: string, version: int, colors: Colors, p: Pixels, q: Pixels)
    requires Supported(id, version) && colors == PaletteByID(id, version).value.colors
    requires ShowsPostcard(a, colors, p) && ShowsPostcard(b, colors, q)
    requires forall x, y :: 0 <= x < POSTCARD_SIZE && 0 <= y < POSTCARD_SIZE ==> a[x, y] == b[x, y]
    ensures p == q
  {
    PalettesAreInjective(id, version);
    AlikeImagesReadAlike(a, b, colors);
    RenderedPostcardReadsBack(a, colors, p);
    RenderedPostcardReadsBack(b, colors, q);
  }

  lemma AlikeImagesReadAlike(a: Image, b: Image, colors: seq<int>)
    requires a.Length0 == b.Length0 == POSTCARD_SIZE && a.Length1 == b.Length1 == POSTCARD_SIZE
    requires forall x, y :: 0 <= x < POSTCARD_SIZE && 0 <= y < POSTCARD_SIZE ==> a[x, y] == b[x, y]
    ensures ReadBack(a, colors) == ReadBack(b, colors)
  {
    forall k: nat | IsCell(k) ensures ReadPixel(a, colors, k) == ReadPixel(b, colors, k) {
      SamplePoint(k, 0, 0);
    }
  }
}
