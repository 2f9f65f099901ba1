/** Saved drafts: validation of untrusted values, and the round trip between a draft and an editor. */
module Drafts {
  import opened Wrappers
  import opened Alias
  import opened Canvas
  import opened Lines
  import opened Palettes
  import opened Timeline
  import opened EditorHistory

  /** A parsed script value. `Fraction` stands for every number that is not an integer. */
  datatype JsValue =
    | Undefined
    | Null
    | Bool(b: bool)
    | Int(n: int)
    | Fraction
    | Str(s: string)
    | Arr(items: seq<JsValue>)
    | Obj(fields: map<string, JsValue>)

  const DRAFT_VERSION: int := 3
  const HISTORY_LIMIT: int := 64
  const MAX_SAFE_INTEGER: int := 9007199254740991

  type Fields = map<string, JsValue>

  /** Reading a property that is not there yields undefined. */
  function Get(o: Fields, name: string): JsValue {
    if name in o then o[name] else Undefined
  }

  predicate ValidColor(v: JsValue) {
    v.Int? && 0 <= v.n < COLOR_COUNT
  }

  predicate ValidPixels(v: JsValue) {
    v.Arr? && |v.items| == PIXEL_COUNT && forall k :: 0 <= k < |v.items| ==> ValidColor(v.items[k])
  }

  function ToPixels(v: JsValue): (p: Pixels)
    requires ValidPixels(v)
    ensures forall k :: IsCell(k) ==> v.items[k] == Int(p[k])
  {
    seq(PIXEL_COUNT, k requires 0 <= k < PIXEL_COUNT => v.items[k].n)
  }

  function FromPixels(p: Pixels): (v: JsValue)
    ensures ValidPixels(v) && ToPixels(v) == p
  {
    Arr(seq(PIXEL_COUNT, k requires 0 <= k < PIXEL_COUNT => Int(p[k])))
  }

  predicate ValidAlias(v: JsValue) {
    v.Str? && IsAlias(v.s)
  }

  predicate ValidTool(v: JsValue) {
    v.Str? && ToolNamed(v.s).Some?
  }

  predicate ValidParent(v: JsValue) {
    v.Int? && 1 <= v.n <= MAX_SAFE_INTEGER
  }

  /** Catalog lookup by untrusted values: only a string and an integer can match an entry. */
  function PaletteByValue(catalog: seq<Palette>, id: JsValue, version: JsValue): Option<Palette> {
    if id.Str? && version.Int? then PaletteFrom(catalog, id.s, version.n) else None
  }

  predicate HasDefault(catalog: seq<Palette>) {
    Listed(catalog, DEFAULT_PALETTE_ID, DEFAULT_PALETTE_VERSION)
  }

  function DefaultPalette(catalog: seq<Palette>): Palette
    requires HasDefault(catalog)
  {
    PaletteFrom(catalog, DEFAULT_PALETTE_ID, DEFAULT_PALETTE_VERSION).value
  }

  function MakeDraft(pixels: JsValue, alias: JsValue, selected: JsValue, tool: JsValue, parent: JsValue,
      palette: Palette): Fields {
    map["version" := Int(DRAFT_VERSION), "pixels" := pixels, "alias" := alias, "selected" := selected, "tool" := tool,
        "parentId" := parent, "paletteId" := Str(palette.id), "paletteVersion" := Int(palette.version)]
  }

  function ValidateDraft(catalog: seq<Palette>, value: JsValue): Option<Fields>
    requires HasDefault(catalog)
  {
    if !value.Obj? then None
    else
      var o := value.fields;
      var version := Get(o, "version");
      if version !in [Int(1), Int(2), Int(DRAFT_VERSION)] || !ValidPixels(Get(o, "pixels")) then None
      else if !ValidAlias(Get(o, "alias")) then None
      else if !ValidColor(Get(o, "selected")) then None
      else if !ValidTool(Get(o, "tool")) then None
      else
        var parent := Get(o, "parentId");
        var given := version.n >= 2 && parent != Null && parent != Undefined;
        if given && !ValidParent(parent) then None
        else
          var palette := if version.n == DRAFT_VERSION
                         then PaletteByValue(catalog, Get(o, "paletteId"), Get(o, "paletteVersion"))
                         else Some(DefaultPalette(catalog));
          if palette.None? then None
          else Some(MakeDraft(Get(o, "pixels"), Get(o, "alias"), Get(o, "selected"), Get(o, "tool"),
                              if given then parent else Null, palette.value))
  }

  /** The draft an editor saves, with whatever alias and parent the page hands over. */
  function DraftOf(m: Model, alias: JsValue, parent: JsValue): Fields {
    map["version" := Int(DRAFT_VERSION), "pixels" := FromPixels(m.Drawing()),
        "alias" := if ValidAlias(alias) then alias else Str(""), "selected" := Int(m.selected),
        "tool" := Str(ToolName(m.tool)), "parentId" := if ValidParent(parent) then parent else Null,
        "paletteId" := Str(m.paletteId), "paletteVersion" := Int(m.paletteVersion)]
  }

  /** A new editor from optional settings; anything invalid falls back to its default. */
  function FromOptions(catalog: seq<Palette>, options: Fields): Model
    requires HasDefault(catalog)
  {
    var limit := Get(options, "historyLimit");
    var pixels := Get(options, "pixels");
    var selected := Get(options, "selected");
    var tool := Get(options, "tool");
    var found := PaletteByValue(catalog, Get(options, "paletteId"), Get(options, "paletteVersion"));
    var palette := if found.Some? then found.value else DefaultPalette(catalog);
    Model(catalog,
          if ValidColor(selected) then selected.n else 15,
          if ValidTool(tool) then ToolNamed(tool.s).value else Pencil,
          palette.id, palette.version, Point(0, 0),
          History(if limit.Int? && limit.n > 0 then limit.n else HISTORY_LIMIT, [],
                  if ValidPixels(pixels) then ToPixels(pixels) else Blank(), []),
          None)
  }

  lemma NewEditorIsValid(catalog: seq<Palette>, options: Fields)
    requires HasDefault(catalog)
    ensures Valid(FromOptions(catalog, options))
  {
  }

  /** Every draft an editor saves passes validation unchanged, also in the middle of a stroke. */
  lemma DraftPassesValidation(m: Model, alias: JsValue, parent: JsValue)
    requires HasDefault(m.catalog) && Valid(m)
    ensures ValidateDraft(m.catalog, Obj(DraftOf(m, alias, parent))) == Some(DraftOf(m, alias, parent))
  {
    var d := DraftOf(m, alias, parent);
    assert ValidTool(Get(d, "tool"));
    var palette := PaletteByValue(m.catalog, Get(d, "paletteId"), Get(d, "paletteVersion"));
    assert palette.Some?;
  }

  /** Saving, reloading and saving again yields the same draft. */
  lemma ReloadedDraftIsSame(m: Model, alias: JsValue, parent: JsValue)
    requires HasDefault(m.catalog) && Valid(m)
    ensures var d := DraftOf(m, alias, parent);
            var reloaded := FromOptions(m.catalog, d);
            && DraftOf(reloaded, Get(d, "alias"), Get(d, "parentId")) == d
            && reloaded.Drawing() == m.Drawing() && reloaded.selected == m.selected && reloaded.tool == m.tool
  {
    var d := DraftOf(m, alias, parent);
    assert ToPixels(Get(d, "pixels")) == m.Drawing();
    assert ValidTool(Get(d, "tool"));
    var reloaded := FromOptions(m.catalog, d);
    assert ToolNamed(ToolName(m.tool)) == Some(m.tool);
    assert PaletteByValue(m.catalog, Get(d, "paletteId"), Get(d, "paletteVersion")).Some?;
    assert ToolName(reloaded.tool) == ToolName(m.tool);
  }

  /** A draft saved at any moment of any run, whatever was typed as alias or parent, restores that moment's drawing. */
  lemma DraftOfAnyRunRestores(catalog: seq<Palette>, options: Fields, actions: seq<Action>, alias: JsValue,
      parent: JsValue)
    requires HasDefault(catalog)
    ensures var m := Run(FromOptions(catalog, options), actions);
            var d := DraftOf(m, alias, parent);
            && ValidateDraft(catalog, Obj(d)) == Some(d)
            && FromOptions(catalog, d).Drawing() == m.Drawing()
            && DraftOf(FromOptions(catalog, d), Get(d, "alias"), Get(d, "parentId")) == d
  {
    var m0 := FromOptions(catalog, options);
    NewEditorIsValid(catalog, options);
    RunKeepsValid(m0, actions);
    DraftPassesValidation(Run(m0, actions), alias, parent);
    ReloadedDraftIsSame(Run(m0, actions), alias, parent);
  }

  /** Validation upgrades a version-1 or version-2 draft once: its result validates to itself. */
  lemma ValidationIsIdempotent(catalog: seq<Palette>, value: JsValue)
    requires HasDefault(catalog) && ValidateDraft(catalog, value).Some?
    ensures var d := ValidateDraft(catalog, value).value;
            ValidateDraft(catalog, Obj(d)) == Some(d)
  {
    var d := ValidateDraft(catalog, value).value;
    assert Get(d, "version") == Int(DRAFT_VERSION);
    assert PaletteByValue(catalog, Get(d, "paletteId"), Get(d, "paletteVersion")).Some?;
  }

  // ----- which drafts are accepted, and what is kept -----

  /** 256 integers from 0 to 15. */
  predicate IsDrawing(v: JsValue) {
    v.Arr? && |v.items| == 256 && forall k :: 0 <= k < 256 ==> v.items[k].Int? && 0 <= v.items[k].n <= 15
  }

  predicate IsAliasText(v: JsValue) {
    v.Str? && |v.s| <= 16 && forall i :: 0 <= i < |v.s| ==> AcceptableCode(v.s[i] as int)
  }

  predicate IsToolName(v: JsValue) {
    v in [Str("pencil"), Str("eraser"), Str("fill"), Str("eyedropper")]
  }

  predicate IsColorIndex(v: JsValue) {
    v.Int? && 0 <= v.n <= 15
  }

  /** A positive integer that a script number holds exactly. */
  predicate IsPostcardId(v: JsValue) {
    v.Int? && 1 <= v.n <= 9007199254740991
  }

  predicate NamesPalette(catalog: seq<Palette>, id: JsValue, version: JsValue) {
    exists p :: p in catalog && id == Str(p.id) && version == Int(p.version)
  }

  /** What all versions of a draft must have. */
  predicate HasBasics(o: Fields) {
    && IsDrawing(Get(o, "pixels")) && IsAliasText(Get(o, "alias")) && IsColorIndex(Get(o, "selected"))
    && IsToolName(Get(o, "tool"))
  }

  predicate NamesNoParent(o: Fields) {
    Get(o, "parentId") in [Undefined, Null]
  }

  /**
   * A version-1 draft needs the basics only; version 2 added an optional parent; version 3 names its palette too.
   */
  predicate Acceptable(catalog: seq<Palette>, o: Fields) {
    && HasBasics(o)
    && match Get(o, "version")
       case Int(n) =>
         || n == 1
         || (n == 2 && (NamesNoParent(o) || IsPostcardId(Get(o, "parentId"))))
         || (n == 3 && (NamesNoParent(o) || IsPostcardId(Get(o, "parentId")))
             && NamesPalette(catalog, Get(o, "paletteId"), Get(o, "paletteVersion")))
       case _ => false
  }

  lemma DraftIsAcceptedIff(catalog: seq<Palette>, value: JsValue)
    requires HasDefault(catalog)
    ensures ValidateDraft(catalog, value).Some? <==> value.Obj? && Acceptable(catalog, value.fields)
  {
    if value.Obj? {
      var o := value.fields;
      BasicsAre(o);
      PaletteIsNamed(catalog, Get(o, "paletteId"), Get(o, "paletteVersion"));
    }
  }

  lemma BasicsAre(o: Fields)
    ensures HasBasics(o) <==> ValidPixels(Get(o, "pixels")) && ValidAlias(Get(o, "alias"))
                              && ValidColor(Get(o, "selected")) && ValidTool(Get(o, "tool"))
  {
    var alias := Get(o, "alias");
    if alias.Str? { AliasIs(alias.s); }
    DrawingIs(Get(o, "pixels"));
  }

  lemma PaletteIsNamed(catalog: seq<Palette>, id: JsValue, version: JsValue)
    ensures PaletteByValue(catalog, id, version).Some? <==> NamesPalette(catalog, id, version)
  {
    var found := PaletteByValue(catalog, id, version);
    if found.Some? { assert found.value in catalog; }
  }

  /** An accepted draft keeps drawing, alias, colour and tool, its parent from version 2 and its palette from 3 on. */
  lemma AcceptedDraftKeeps(catalog: seq<Palette>, o: Fields, d: Fields)
    requires HasDefault(catalog) && ValidateDraft(catalog, Obj(o)) == Some(d)
    ensures d.Keys == {"version", "pixels", "alias", "selected", "tool", "parentId", "paletteId", "paletteVersion"}
    ensures d["version"] == Int(3) && d["pixels"] == Get(o, "pixels") && d["alias"] == Get(o, "alias")
            && d["selected"] == Get(o, "selected") && d["tool"] == Get(o, "tool")
    ensures d["parentId"] == if Get(o, "version") == Int(1) || NamesNoParent(o) then Null else Get(o, "parentId")
    ensures Get(o, "version") == Int(3) ==>
              d["paletteId"] == Get(o, "paletteId") && d["paletteVersion"] == Get(o, "paletteVersion")
    ensures Get(o, "version") != Int(3) ==> d["paletteId"] == Str("vga16") && d["paletteVersion"] == Int(1)
  {
  }

  /** A saved draft holds the editor's state; an alias or parent that makes no sense is left out. */
  lemma DraftHolds(m: Model, alias: JsValue, parent: JsValue)
    ensures var d := DraftOf(m, alias, parent);
            && d.Keys == {"version", "pixels", "alias", "selected", "tool", "parentId", "paletteId", "paletteVersion"}
            && d["version"] == Int(3) && d["selected"] == Int(m.selected)
            && d["pixels"].Arr? && |d["pixels"].items| == 256
            && (forall k :: 0 <= k < 256 ==> d["pixels"].items[k] == Int(m.Drawing()[k]))
            && d["tool"] == (match m.tool case Pencil => Str("pencil") case Eraser => Str("eraser")
                                          case Fill => Str("fill") case Eyedropper => Str("eyedropper"))
            && d["alias"] == (if IsAliasText(alias) then alias else Str(""))
            && d["parentId"] == (if IsPostcardId(parent) then parent else Null)
            && d["paletteId"] == Str(m.paletteId) && d["paletteVersion"] == Int(m.paletteVersion)
  {
    if alias.Str? { AliasIs(alias.s); }
  }

  /** A new editor takes each setting that makes sense and falls back to its default for each that does not. */
  lemma NewEditorIs(catalog: seq<Palette>, options: Fields)
    requires HasDefault(catalog)
    ensures var m := FromOptions(catalog, options);
            && m.cursor == Point(0, 0) && m.stroke == None && m.history.past == [] && m.history.future == []
            && (forall k :: 0 <= k < 256 ==>
                  Int(m.Drawing()[k])
                  == if IsDrawing(Get(options, "pixels")) then Get(options, "pixels").items[k] else Int(0))
            && Int(m.selected) == (if IsColorIndex(Get(options, "selected")) then Get(options, "selected") else Int(15))
            && Str(ToolName(m.tool))
               == (if IsToolName(Get(options, "tool")) then Get(options, "tool") else Str("pencil"))
            && (var limit := Get(options, "historyLimit");
                Int(m.history.limit) == if limit.Int? && limit.n >= 1 then limit else Int(64))
            && (Str(m.paletteId), Int(m.paletteVersion))
               == if NamesPalette(catalog, Get(options, "paletteId"), Get(options, "paletteVersion"))
                  then (Get(options, "paletteId"), Get(options, "paletteVersion")) else (Str("vga16"), Int(1))
  {
    PaletteIsNamed(catalog, Get(options, "paletteId"), Get(options, "paletteVersion"));
    DrawingIs(Get(options, "pixels"));
  }

  lemma DrawingIs(v: JsValue)
    ensures IsDrawing(v) <==> ValidPixels(v)
  {
    if v.Arr? && |v.items| == 256 {
      assert IsDrawing(v) <==> forall k :: 0 <= k < 256 ==> ValidColor(v.items[k]);
    }
  }
}
