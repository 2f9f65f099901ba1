/** The closed, versioned palette catalog. */
module Palettes {
  import opened Wrappers
  import opened Canvas
  import opened Sequences

  /** A palette's identity and its sixteen colours as 0xRRGGBB. */
  datatype Palette = Palette(id: string, version: int, colors: seq<int>)

  const DEFAULT_PALETTE_ID := "vga16"
  const DEFAULT_PALETTE_VERSION := 1

  const CATALOG: seq<Palette> := [
    Palette("vga16", 1, [
      0x000000, 0x0000AA, 0x00AA00, 0x00AAAA, 0xAA0000, 0xAA00AA, 0xAA5500, 0xAAAAAA,
      0x555555, 0x5555FF, 0x55FF55, 0x55FFFF, 0xFF5555, 0xFF55FF, 0xFFFF55, 0xFFFFFF]),
    Palette("grayscale16", 1, [
      0x000000, 0x111111, 0x222222, 0x333333, 0x444444, 0x555555, 0x666666, 0x777777,
      0x888888, 0x999999, 0xAAAAAA, 0xBBBBBB, 0xCCCCCC, 0xDDDDDD, 0xEEEEEE, 0xFFFFFF]),
    Palette("sunset16", 1, [
      0x140C1C, 0x442434, 0x30346D, 0x4E4A4E, 0x854C30, 0x346524, 0xD04648, 0x757161,
      0x597DCE, 0xD27D2C, 0x8595A1, 0x6DAA2C, 0xD2AA99, 0x6DC2CA, 0xDAD45E, 0xDEEED6])
  ]

  /** First catalog entry with the given identity. */
  function PaletteFrom(catalog: seq<Palette>, id: string, version: int): (r: Option<Palette>)
    ensures r.Some? ==> r.value in catalog && r.value.id == id && r.value.version == version
    ensures r.None? ==> forall p :: p in catalog ==> !(p.id == id && p.version == version)
  {
    if catalog == [] then None
    else if catalog[0].id == id && catalog[0].version == version then Some(catalog[0])
    else PaletteFrom(catalog[1..], id, version)
  }

  predicate Listed(catalog: seq<Palette>, id: string, version: int) {
    PaletteFrom(catalog, id, version).Some?
  }

  function PaletteByID(id: string, version: int): Option<Palette> {
    PaletteFrom(CATALOG, id, version)
  }

  predicate Supported(id: string, version: int) {
    Listed(CATALOG, id, version)
  }

  lemma FirstColorsAreDistinct(colors: seq<int>)
    requires colors == CATALOG[0].colors
    ensures |colors| == COLOR_COUNT && Distinct(colors)
  {
  }

  lemma SecondColorsAreDistinct(colors: seq<int>)
    requires colors == CATALOG[1].colors
    ensures |colors| == COLOR_COUNT && Distinct(colors)
  {
  }

  lemma ThirdColorsAreDistinct(colors: seq<int>)
    requires colors == CATALOG[2].colors
    ensures |colors| == COLOR_COUNT && Distinct(colors)
  {
  }

  lemma ColorsAreDistinct(p: Palette)
    requires p in CATALOG
    ensures |p.colors| == COLOR_COUNT && Distinct(p.colors)
  {
    if p == CATALOG[0] { FirstColorsAreDistinct(p.colors); }
    else if p == CATALOG[1] { SecondColorsAreDistinct(p.colors); }
    else { ThirdColorsAreDistinct(p.colors); }
  }

  /** Every supported palette has sixteen different colours, so a colour names its index. */
  lemma PalettesAreInjective(id: string, version: int)
    requires Supported(id, version)
    ensures var colors := PaletteByID(id, version).value.colors;
            |colors| == COLOR_COUNT && Distinct(colors)
  {
    ColorsAreDistinct(PaletteByID(id, version).value);
  }

  /** The closed catalog, listed; identities are unique. */
  lemma SupportedPalettes(id: string, version: int)
    ensures Supported(id, version) <==> version == 1 && id in ["vga16", "grayscale16", "sunset16"]
  {
    assert CATALOG[0].id == "vga16" && CATALOG[1].id == "grayscale16" && CATALOG[2].id == "sunset16";
    if version == 1 && id in ["vga16", "grayscale16", "sunset16"] {
      var i :| 0 <= i < 3 && CATALOG[i].id == id;
      assert CATALOG[i] in CATALOG;
    }
  }

  lemma DefaultIsSupported()
    ensures Supported(DEFAULT_PALETTE_ID, DEFAULT_PALETTE_VERSION)
  {
    SupportedPalettes(DEFAULT_PALETTE_ID, DEFAULT_PALETTE_VERSION);
  }
}
