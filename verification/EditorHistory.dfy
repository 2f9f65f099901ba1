/** The editor as a value: what every operation does to the drawing, the open stroke and the undo history. */
module EditorHistory {
  import opened Wrappers
  import opened Canvas
  import opened Lines
  import opened FloodFill
  import opened Flips
  import opened Palettes
  import opened Timeline
  import opened Sequences

  datatype Tool = Pencil | Eraser | Fill | Eyedropper

  function ToolNamed(name: string): Option<Tool> {
    match name
    case "pencil" => Some(Pencil)
    case "eraser" => Some(Eraser)
    case "fill" => Some(Fill)
    case "eyedropper" => Some(Eyedropper)
    case _ => None
  }

  function ToolName(tool: Tool): (name: string)
    ensures ToolNamed(name) == Some(tool)
  {
    match tool
    case Pencil => "pencil"
    case Eraser => "eraser"
    case Fill => "fill"
    case Eyedropper => "eyedropper"
  }

  /** A pointer stroke in progress: the drawing when it began and the last point visited. */
  datatype Stroke = Stroke(before: Pixels, last: Point)

  datatype Model = Model(
    catalog: seq<Palette>, selected: Color, tool: Tool, paletteId: string, paletteVersion: int, cursor: Point,
    history: History<Pixels>, stroke: Option<Stroke>)
  {
    function Drawing(): Pixels { history.present }

    /** The colour the pencil or eraser leaves. */
    function Ink(): Color {
      if tool == Eraser then 0 else selected
    }

    function Show(pixels: Pixels): Model { this.(history := history.(present := pixels)) }
  }

  datatype Action =
    | SetSelected(value: int)
    | SetTool(name: string)
    | SetPalette(id: string, version: int)
    | SetCursor(x: int, y: int)
    | MoveCursor(dx: int, dy: int)
    | BeginStroke(x: int, y: int)
    | ContinueStroke(x: int, y: int)
    | EndStroke
    | ApplyAt(x: int, y: int)
    | Clear
    | Flip(axis: Axis)
    | Undo
    | Redo

  /** The state after an operation and the boolean it returned. */
  datatype Outcome = Outcome(model: Model, ok: bool)

  ghost predicate Valid(m: Model) {
    && OnCanvas(m.cursor.x, m.cursor.y)
    && (m.stroke.Some? ==> OnCanvas(m.stroke.value.last.x, m.stroke.value.last.y))
    && Bounded(m.history)
    && Listed(m.catalog, m.paletteId, m.paletteVersion)
  }

  function Clamp(value: int, maximum: int): int {
    Max(0, Min(maximum - 1, value))
  }

  function Blank(): (p: Pixels)
    ensures forall k :: IsCell(k) ==> p[k] == 0
  {
    seq(PIXEL_COUNT, _ => 0)
  }

  /** Commits the drawing as a change from `before`; reports whether there was one. */
  function Committed(m: Model, before: Pixels): Outcome {
    Outcome(m.(history := Commit(m.history, before)), before != m.Drawing())
  }

  function Edited(m: Model, pixels: Pixels): Outcome {
    Committed(m.Show(pixels), m.Drawing())
  }

  /** A click of the current tool; the pencil and the eraser paint the single cell `dot`. */
  ghost function ApplyTool(m: Model, k: int, dot: Pixels): Outcome
    requires IsCell(k)
  {
    match m.tool
    case Eyedropper => Outcome(m.(selected := m.Drawing()[k]), false)
    case Fill => Edited(m, Filled(m.Drawing(), k, m.selected))
    case _ => Edited(m, dot)
  }

  ghost function Press(m: Model, x: int, y: int): Outcome {
    if !OnCanvas(x, y) then Outcome(m, false)
    else
      var at := m.(cursor := Point(x, y));
      if m.tool.Fill? || m.tool.Eyedropper? then ApplyTool(at, IndexFor(x, y), m.Drawing())
      else Outcome(at.(stroke := Some(Stroke(m.Drawing(), Point(x, y))))
                     .Show(Drawn(m.Drawing(), IdealLine(x, y, x, y), m.Ink())), true)
  }

  ghost function DragTo(m: Model, x: int, y: int): Outcome {
    if m.stroke.None? || !OnCanvas(x, y) then Outcome(m, false)
    else
      var Stroke(before, last) := m.stroke.value;
      Outcome(m.(cursor := Point(x, y), stroke := Some(Stroke(before, Point(x, y))))
               .Show(Drawn(m.Drawing(), IdealLine(last.x, last.y, x, y), m.Ink())), true)
  }

  function Release(m: Model): Outcome {
    if m.stroke.None? then Outcome(m, false) else Committed(m.(stroke := None), m.stroke.value.before)
  }

  ghost function Click(m: Model, x: int, y: int): Outcome {
    if !OnCanvas(x, y) then Outcome(m, false)
    else ApplyTool(m.(cursor := Point(x, y)), IndexFor(x, y), m.Drawing()[IndexFor(x, y) := m.Ink()])
  }

  function Undone(m: Model): Outcome {
    if m.history.past == [] then Outcome(m, false) else Outcome(m.(history := Back(m.history), stroke := None), true)
  }

  function Redone(m: Model): Outcome {
    if m.history.future == [] then Outcome(m, false)
    else Outcome(m.(history := Forward(m.history), stroke := None), true)
  }

  ghost function Step(m: Model, a: Action): Outcome {
    match a
    case SetSelected(value) =>
      if 0 <= value < COLOR_COUNT then Outcome(m.(selected := value), true) else Outcome(m, false)
    case SetTool(name) =>
      if ToolNamed(name).Some? then Outcome(m.(tool := ToolNamed(name).value), true) else Outcome(m, false)
    case SetPalette(id, version) =>
      if Listed(m.catalog, id, version) then Outcome(m.(paletteId := id, paletteVersion := version), true)
      else Outcome(m, false)
    case SetCursor(x, y) =>
      if OnCanvas(x, y) then Outcome(m.(cursor := Point(x, y)), true) else Outcome(m, false)
    case MoveCursor(dx, dy) =>
      Outcome(m.(cursor := Point(Clamp(m.cursor.x + dx, WIDTH), Clamp(m.cursor.y + dy, HEIGHT))), true)
    case BeginStroke(x, y) => Press(m, x, y)
    case ContinueStroke(x, y) => DragTo(m, x, y)
    case EndStroke => Release(m)
    case ApplyAt(x, y) => Click(m, x, y)
    case Clear => Edited(m, Blank())
    case Flip(axis) => Edited(m, Flipped(axis, m.Drawing()))
    case Undo => Undone(m)
    case Redo => Redone(m)
  }

  ghost function Run(m: Model, actions: seq<Action>): Model
    decreases |actions|
  {
    if actions == [] then m else Run(Step(m, actions[0]).model, actions[1..])
  }

  lemma {:induction false} RunAppend(m: Model, first: seq<Action>, second: seq<Action>)
    ensures Run(m, first + second) == Run(Run(m, first), second)
    decreases |first|
  {
    if first == [] {
      assert first + second == second;
    } else {
      assert (first + second)[1..] == first[1..] + second;
      RunAppend(Step(m, first[0]).model, first[1..], second);
    }
  }

  lemma RunOne(m: Model, a: Action)
    ensures Run(m, [a]) == Step(m, a).model
  {
    assert [a][1..] == [];
  }

  // ----- invariants of every run -----

  lemma StepKeepsValid(m: Model, a: Action)
    requires Valid(m)
    ensures Valid(Step(m, a).model)
    ensures Step(m, a).model.history.limit == m.history.limit && Step(m, a).model.catalog == m.catalog
  {
    match a
    case BeginStroke(x, y) => PressKeepsValid(m, x, y);
    case ApplyAt(x, y) => ClickKeepsValid(m, x, y);
    case Clear => EditKeepsValid(m, Blank());
    case Flip(axis) => EditKeepsValid(m, Flipped(axis, m.Drawing()));
    case EndStroke => MovesKeepValid(m);
    case Undo => MovesKeepValid(m);
    case Redo => MovesKeepValid(m);
    case _ => SettingKeepsValid(m, a);
  }

  lemma SettingKeepsValid(m: Model, a: Action)
    requires Valid(m) && !a.BeginStroke? && !a.ApplyAt? && !a.Clear? && !a.Flip?
    requires !a.EndStroke? && !a.Undo? && !a.Redo?
    ensures var n := Step(m, a).model;
            Valid(n) && n.history.limit == m.history.limit && n.catalog == m.catalog
  {
  }

  lemma PressKeepsValid(m: Model, x: int, y: int)
    requires Valid(m)
    ensures var n := Press(m, x, y).model;
            Valid(n) && n.history.limit == m.history.limit && n.catalog == m.catalog
  {
    if OnCanvas(x, y) { ToolKeepsValid(m.(cursor := Point(x, y)), IndexFor(x, y), m.Drawing()); }
  }

  lemma ClickKeepsValid(m: Model, x: int, y: int)
    requires Valid(m)
    ensures var n := Click(m, x, y).model;
            Valid(n) && n.history.limit == m.history.limit && n.catalog == m.catalog
  {
    if OnCanvas(x, y) {
      ToolKeepsValid(m.(cursor := Point(x, y)), IndexFor(x, y), m.Drawing()[IndexFor(x, y) := m.Ink()]);
    }
  }

  lemma MovesKeepValid(m: Model)
    requires Valid(m)
    ensures Valid(Release(m).model) && Valid(Undone(m).model) && Valid(Redone(m).model)
    ensures forall n :: n in [Release(m).model, Undone(m).model, Redone(m).model] ==>
              n.history.limit == m.history.limit && n.catalog == m.catalog
  {
    MovesKeepBound(m.history, m.Drawing());
    if m.stroke.Some? { MovesKeepBound(m.history, m.stroke.value.before); }
  }

  lemma EditKeepsValid(m: Model, pixels: Pixels)
    requires Valid(m)
    ensures Valid(Edited(m, pixels).model) && Edited(m, pixels).model.history.limit == m.history.limit
  {
    MovesKeepBound(m.Show(pixels).history, m.Drawing());
  }

  lemma ToolKeepsValid(m: Model, k: int, dot: Pixels)
    requires Valid(m) && IsCell(k)
    ensures var n := ApplyTool(m, k, dot).model;
            Valid(n) && n.history.limit == m.history.limit && n.catalog == m.catalog
  {
    EditKeepsValid(m, dot);
    EditKeepsValid(m, Filled(m.Drawing(), k, m.selected));
  }

  /** Every reachable state keeps the cursor on the canvas, a listed palette and at most `limit` snapshots in all. */
  lemma {:induction false} RunKeepsValid(m: Model, actions: seq<Action>)
    requires Valid(m)
    ensures Valid(Run(m, actions))
    ensures Run(m, actions).history.limit == m.history.limit && Run(m, actions).catalog == m.catalog
    decreases |actions|
  {
    if actions != [] {
      StepKeepsValid(m, actions[0]);
      RunKeepsValid(Step(m, actions[0]).model, actions[1..]);
    }
  }

  lemma RunTwo(m: Model, a: Action, b: Action)
    ensures Run(m, [a, b]) == Step(Step(m, a).model, b).model
  {
    assert [a, b][1..] == [b];
    RunOne(Step(m, a).model, b);
  }

  /** Every drawing a model holds is one of `shown`. */
  ghost predicate HoldsOnly(m: Model, shown: set<Pixels>) {
    && m.Drawing() in shown
    && (forall p :: p in m.history.past ==> p in shown)
    && (forall p :: p in m.history.future ==> p in shown)
    && (m.stroke.Some? ==> m.stroke.value.before in shown)
  }

  /** The drawings shown along a run, the first one included. */
  ghost function Shown(m: Model, actions: seq<Action>): set<Pixels>
    decreases |actions|
  {
    {m.Drawing()} + if actions == [] then {} else Shown(Step(m, actions[0]).model, actions[1..])
  }

  lemma CommitHoldsOnlyShown(m: Model, before: Pixels, shown: set<Pixels>)
    requires HoldsOnly(m, shown) && before in shown
    ensures HoldsOnly(Committed(m, before).model, shown)
  {
  }

  lemma EditHoldsOnlyShown(m: Model, pixels: Pixels, shown: set<Pixels>)
    requires HoldsOnly(m, shown)
    ensures HoldsOnly(Edited(m, pixels).model, shown + {pixels})
  {
    CommitHoldsOnlyShown(m.Show(pixels), m.Drawing(), shown + {pixels});
  }

  lemma StepHoldsOnlyShown(m: Model, a: Action, shown: set<Pixels>)
    requires HoldsOnly(m, shown)
    ensures HoldsOnly(Step(m, a).model, shown + {Step(m, a).model.Drawing()})
  {
    match a
    case BeginStroke(x, y) =>
      if OnCanvas(x, y) { ToolHoldsOnlyShown(m.(cursor := Point(x, y)), IndexFor(x, y), m.Drawing(), shown); }
    case ApplyAt(x, y) =>
      if OnCanvas(x, y) {
        ToolHoldsOnlyShown(m.(cursor := Point(x, y)), IndexFor(x, y), m.Drawing()[IndexFor(x, y) := m.Ink()], shown);
      }
    case EndStroke =>
      if m.stroke.Some? { CommitHoldsOnlyShown(m.(stroke := None), m.stroke.value.before, shown); }
    case Clear => EditHoldsOnlyShown(m, Blank(), shown);
    case Flip(axis) => EditHoldsOnlyShown(m, Flipped(axis, m.Drawing()), shown);
    case _ =>
  }

  lemma ToolHoldsOnlyShown(m: Model, k: int, dot: Pixels, shown: set<Pixels>)
    requires HoldsOnly(m, shown) && IsCell(k)
    ensures var n := ApplyTool(m, k, dot).model;
            HoldsOnly(n, shown + {n.Drawing()})
  {
    EditHoldsOnlyShown(m, dot, shown);
    EditHoldsOnlyShown(m, Filled(m.Drawing(), k, m.selected), shown);
  }

  /**
   * On any run, also one mixing half-finished strokes, edits, undo and redo, each stored snapshot was once on
   * screen.
   */
  lemma {:induction false} HistoryHoldsOnlyShownDrawings(m: Model, actions: seq<Action>, earlier: set<Pixels>)
    requires HoldsOnly(m, earlier)
    ensures HoldsOnly(Run(m, actions), earlier + Shown(m, actions))
    decreases |actions|
  {
    if actions != [] {
      var next := Step(m, actions[0]).model;
      StepHoldsOnlyShown(m, actions[0], earlier);
      HistoryHoldsOnlyShownDrawings(next, actions[1..], earlier + {next.Drawing()});
    }
  }

  // ----- a run of complete gestures is a run of undo steps -----

  /** One user gesture: a single operation, or a whole pointer stroke from press to release. */
  datatype Gesture =
    | Single(action: Action)
    | Drag(from: Point, through: seq<Point>)

  /** Everything but undo, redo and the three stroke events, which only a drag uses. */
  predicate IsComplete(g: Gesture) {
    match g
    case Single(a) => !(a.Undo? || a.Redo? || a.BeginStroke? || a.ContinueStroke? || a.EndStroke?)
    case Drag(_, _) => true
  }

  function Continues(through: seq<Point>): seq<Action> {
    if through == [] then [] else [ContinueStroke(through[0].x, through[0].y)] + Continues(through[1..])
  }

  function Actions(g: Gesture): seq<Action> {
    match g
    case Single(a) => [a]
    case Drag(from, through) => [BeginStroke(from.x, from.y)] + (Continues(through) + [EndStroke])
  }

  /** One gesture is one recorded change if it changed the drawing, and leaves the history alone if it did not. */
  ghost predicate OneUndoStep(m: Model, n: Model) {
    n.history == Record(m.history, n.Drawing())
  }

  /** A press that starts a stroke of its own, whatever was open before. */
  predicate Opens(m: Model, p: Point) {
    OnCanvas(p.x, p.y) && (m.tool.Pencil? || m.tool.Eraser?)
  }

  lemma {:induction false} ContinuesOnlyPaint(m: Model, through: seq<Point>)
    ensures var n := Run(m, Continues(through));
            && n.history == m.history.(present := n.Drawing()) && n.tool == m.tool
            && (m.stroke.None? ==> n == m)
            && (m.stroke.Some? ==> n.stroke.Some? && n.stroke.value.before == m.stroke.value.before)
    decreases |through|
  {
    if through != [] {
      assert Continues(through)[1..] == Continues(through[1..]);
      ContinuesOnlyPaint(Step(m, Continues(through)[0]).model, through[1..]);
    }
  }

  lemma EditIsOneUndoStep(m: Model, pixels: Pixels)
    ensures OneUndoStep(m, Edited(m, pixels).model) && Edited(m, pixels).model.stroke == m.stroke
  {
  }

  lemma SingleIsOneUndoStep(m: Model, a: Action)
    requires IsComplete(Single(a))
    ensures OneUndoStep(m, Step(m, a).model) && Step(m, a).model.stroke == m.stroke
  {
    match a
    case ApplyAt(x, y) =>
      if OnCanvas(x, y) && !m.tool.Eyedropper? {
        EditIsOneUndoStep(m.(cursor := Point(x, y)), Step(m, a).model.Drawing());
      }
    case Clear => EditIsOneUndoStep(m, Blank());
    case Flip(axis) => EditIsOneUndoStep(m, Flipped(axis, m.Drawing()));
    case _ =>
  }

  /** A press opens a stroke that remembers the drawing, or does all its work at once and opens none. */
  lemma PressOpensOrEdits(m: Model, x: int, y: int)
    ensures var n := Press(m, x, y).model;
            if Opens(m, Point(x, y)) then
              n.stroke.Some? && n.stroke.value.before == m.Drawing() && n.history == m.history.(present := n.Drawing())
            else OneUndoStep(m, n) && n.stroke == m.stroke
  {
    if OnCanvas(x, y) && m.tool.Fill? {
      EditIsOneUndoStep(m.(cursor := Point(x, y)), Filled(m.Drawing(), IndexFor(x, y), m.selected));
    }
  }

  /**
   * When a stroke still open from before, released by a drag that opened none of its own, leaves one undo step. The
   * press may have filled (`begun`), and the drag has painted up to `last`.
   */
  predicate OneStepAnyway(h: History<Pixels>, before: Pixels, begun: Pixels, last: Pixels) {
    if begun == h.present then Interchangeable(h.(present := last), before, h.present)
    else SecondCommitHides(h, last, before)
  }

  /**
   * A single operation is one undo step even inside an open stroke. A pointer stroke is one too, except when its press
   * opens none while another is still open: then exactly under the condition above.
   */
  lemma GestureIsOneUndoStep(m: Model, g: Gesture)
    requires Bounded(m.history) && IsComplete(g)
    ensures var n := Run(m, Actions(g));
            OneUndoStep(m, n) <==>
              (g.Drag? && m.stroke.Some? && !Opens(m, g.from) ==>
                 OneStepAnyway(m.history, m.stroke.value.before, Press(m, g.from.x, g.from.y).model.Drawing(),
                               n.Drawing()))
    ensures m.stroke == None ==> Run(m, Actions(g)).stroke == None
  {
    match g {
      case Single(a) =>
        SingleIsOneUndoStep(m, a);
        RunOne(m, a);
      case Drag(from, through) =>
        var begun, n := Press(m, from.x, from.y).model, Run(m, Actions(g));
        RunAppend(m, [BeginStroke(from.x, from.y)], Continues(through) + [EndStroke]);
        RunOne(m, BeginStroke(from.x, from.y));
        PressOpensOrEdits(m, from.x, from.y);
        DragThenRelease(begun, through);
        if m.stroke.Some? && !Opens(m, from) {
          LateReleaseIff(m.history, m.stroke.value.before, begun.history, n.history);
        }
    }
  }

  lemma LateReleaseIff(h: History<Pixels>, before: Pixels, begun: History<Pixels>, end: History<Pixels>)
    requires Bounded(h) && begun == Record(h, begun.present) && end == Commit(begun.(present := end.present), before)
    ensures end == Record(h, end.present) <==> OneStepAnyway(h, before, begun.present, end.present)
  {
    if begun.present == h.present {
      CommitsAgreeIff(h.(present := end.present), before, h.present);
    } else {
      EditThenCommitIsRecordIff(h, begun.present, end.present, before);
    }
  }

  /** The rest of a stroke: the release commits what the press remembered. */
  lemma DragThenRelease(m: Model, through: seq<Point>)
    ensures var n := Run(m, Continues(through) + [EndStroke]);
            && n.stroke == None
            && (m.stroke == None ==> n == m)
            && (m.stroke.Some? ==> n.history == Commit(m.history.(present := n.Drawing()), m.stroke.value.before))
  {
    RunAppend(m, Continues(through), [EndStroke]);
    ContinuesOnlyPaint(m, through);
    RunOne(Run(m, Continues(through)), EndStroke);
  }

  ghost function Perform(m: Model, gestures: seq<Gesture>): Model
    decreases |gestures|
  {
    if gestures == [] then m else Perform(Run(m, Actions(gestures[0])), gestures[1..])
  }

  /** The drawing after each gesture of a run. */
  ghost function Results(m: Model, gestures: seq<Gesture>): seq<Pixels>
    decreases |gestures|
  {
    if gestures == [] then []
    else
      var n := Run(m, Actions(gestures[0]));
      [n.Drawing()] + Results(n, gestures[1..])
  }

  /** A run of complete gestures leaves the history that recording each resulting drawing would leave. */
  lemma {:induction false} GesturesAreRecorded(m: Model, gestures: seq<Gesture>)
    requires Bounded(m.history) && m.stroke == None && forall g :: g in gestures ==> IsComplete(g)
    ensures Perform(m, gestures).stroke == None
            && Perform(m, gestures).history == RecordAll(m.history, Results(m, gestures))
    decreases |gestures|
  {
    if gestures != [] {
      GestureIsOneUndoStep(m, gestures[0]);
      RecordKeepsLast(m.history, Run(m, Actions(gestures[0])).Drawing());
      GesturesAreRecorded(Run(m, Actions(gestures[0])), gestures[1..]);
    }
  }

  ghost function Repeated(a: Action, n: nat): seq<Action> {
    if n == 0 then [] else [a] + Repeated(a, n - 1)
  }

  lemma {:induction false} UndosGoBack(m: Model, j: nat)
    ensures Run(m, Repeated(Undo, j)).history == Backs(m.history, j)
    decreases j
  {
    if j > 0 {
      assert Repeated(Undo, j)[1..] == Repeated(Undo, j - 1);
      UndosGoBack(Undone(m).model, j - 1);
    }
  }

  lemma {:induction false} RedosGoForward(m: Model, j: nat)
    ensures Run(m, Repeated(Redo, j)).history == Forwards(m.history, j)
    decreases j
  {
    if j > 0 {
      assert Repeated(Redo, j)[1..] == Repeated(Redo, j - 1);
      RedosGoForward(Redone(m).model, j - 1);
    }
  }

  /**
   * A run of complete gestures, with no press or edit inside an open stroke: undoing `j` of the `k` that changed
   * something, with `j` no more than the limit, shows exactly the drawing the `j`-th last of them replaced; `j == k`
   * undos bring back the start. Redoing as often restores the final history.
   */
  lemma CompleteGesturesReturnToStart(m: Model, gestures: seq<Gesture>, j: nat)
    requires Valid(m) && m.stroke == None && forall g :: g in gestures ==> IsComplete(g)
    requires j <= |Replaced(m.Drawing(), Results(m, gestures))| && j <= m.history.limit
    ensures var replaced, end := Replaced(m.Drawing(), Results(m, gestures)), Perform(m, gestures);
            var undone := Run(end, Repeated(Undo, j));
            && undone.Drawing() == PlacesBack(replaced, end.Drawing(), j)
            && (j == |replaced| ==> undone.Drawing() == m.Drawing())
            && Run(undone, Repeated(Redo, j)).history == end.history
  {
    var end, results := Perform(m, gestures), Results(m, gestures);
    assert end.history == RecordAll(m.history, results) by { GesturesAreRecorded(m, gestures); }
    UndosReturn(m, end, results, j);
  }

  lemma UndosReturn(m: Model, end: Model, results: seq<Pixels>, j: nat)
    requires Bounded(m.history) && end.history == RecordAll(m.history, results)
    requires j <= |Replaced(m.Drawing(), results)| && j <= m.history.limit
    ensures var replaced, undone := Replaced(m.Drawing(), results), Run(end, Repeated(Undo, j));
            && undone.Drawing() == PlacesBack(replaced, end.Drawing(), j)
            && (j == |replaced| ==> undone.Drawing() == m.Drawing())
            && Run(undone, Repeated(Redo, j)).history == end.history
  {
    BacksReturnToStart(m.history, results, j);
    UndosThenRedos(end, j);
  }

  lemma UndosThenRedos(m: Model, j: nat)
    requires j <= |m.history.past|
    ensures var undone := Run(m, Repeated(Undo, j));
            undone.history == Backs(m.history, j) && Run(undone, Repeated(Redo, j)).history == m.history
  {
    UndosGoBack(m, j);
    RedosGoForward(Run(m, Repeated(Undo, j)), j);
    ForwardsInvertBacks(m.history, j);
  }

  // ----- any run: what its operations keep for undo -----

  /** The operation replaces the drawing at once: a click, an edit of the whole canvas, or a fill press. */
  predicate EditsNow(m: Model, a: Action) {
    match a
    case ApplyAt(x, y) => OnCanvas(x, y) && !m.tool.Eyedropper?
    case BeginStroke(x, y) => OnCanvas(x, y) && m.tool.Fill?
    case Clear => true
    case Flip(_) => true
    case _ => false
  }

  /** What an operation keeps if it commits: a release what its stroke's press found, an edit what it finds itself. */
  function Snapshot(m: Model, a: Action): Pixels {
    if a.EndStroke? && m.stroke.Some? then m.stroke.value.before else m.Drawing()
  }

  ghost predicate Commits(m: Model, a: Action) {
    (EditsNow(m, a) || (a.EndStroke? && m.stroke.Some?)) && Step(m, a).model.Drawing() != Snapshot(m, a)
  }

  ghost function Keeps(m: Model, a: Action): seq<Pixels> {
    if Commits(m, a) then [Snapshot(m, a)] else []
  }

  /** The snapshots the committed edits of a run keep, in order. */
  ghost function Kept(m: Model, actions: seq<Action>): seq<Pixels>
    decreases |actions|
  {
    if actions == [] then [] else Keeps(m, actions[0]) + Kept(Step(m, actions[0]).model, actions[1..])
  }

  predicate MovesOn(a: Action) { !a.Undo? && !a.Redo? }

  /** An edit or a release reports that it changed something exactly when it commits. */
  lemma StepKeeps(m: Model, a: Action)
    requires Bounded(m.history) && MovesOn(a)
    ensures EditsNow(m, a) || a.EndStroke? ==> (Step(m, a).ok <==> Commits(m, a))
    ensures var n := Step(m, a).model.history;
            && Bounded(n) && n.limit == m.history.limit
            && n.past == LastN(m.history.past + Keeps(m, a), m.history.limit)
  {
    var n := Step(m, a).model;
    if EditsNow(m, a) {
      CommitTrims(m.history.(present := n.Drawing()), m.Drawing());
    } else if a.EndStroke? && m.stroke.Some? {
      CommitTrims(m.history, m.stroke.value.before);
    } else {
      CommitTrims(m.history, m.Drawing());
    }
  }

  lemma {:induction false} RunKeeps(m: Model, actions: seq<Action>)
    requires Bounded(m.history) && forall a :: a in actions ==> MovesOn(a)
    ensures var n := Run(m, actions).history;
            && Bounded(n) && n.limit == m.history.limit
            && n.past == LastN(m.history.past + Kept(m, actions), m.history.limit)
    decreases |actions|
  {
    if actions == [] {
      CommitTrims(m.history, m.Drawing());
    } else {
      StepKeeps(m, actions[0]);
      RunKeeps(Step(m, actions[0]).model, actions[1..]);
      TrimTwice(m.history.past, Keeps(m, actions[0]), Kept(Step(m, actions[0]).model, actions[1..]), m.history.limit);
    }
  }

  /** The first operation that commits would keep `start`; if none commits, `start` is still shown at the end. */
  ghost predicate StartIsKept(m: Model, start: Pixels, actions: seq<Action>)
    decreases |actions|
  {
    if actions == [] then m.Drawing() == start
    else if Commits(m, actions[0]) then Snapshot(m, actions[0]) == start
    else StartIsKept(Step(m, actions[0]).model, start, actions[1..])
  }

  lemma {:induction false} FirstKept(m: Model, start: Pixels, actions: seq<Action>)
    ensures var kept := Kept(m, actions);
            StartIsKept(m, start, actions) <==> PlacesBack(kept, Run(m, actions).Drawing(), |kept|) == start
    decreases |actions|
  {
    if actions != [] { FirstKept(Step(m, actions[0]).model, start, actions[1..]); }
  }

  /**
   * Any run without undo and redo, also one that edits inside an open stroke or begins a stroke twice: `j` undos
   * show the `j`-th last snapshot kept, and as many undos as there were committed edits return to the start exactly
   * when the first committed edit kept the start. As many redos restore the final history.
   */
  lemma UndosReturnToStart(m: Model, actions: seq<Action>, start: Pixels, j: nat)
    requires Bounded(m.history) && forall a :: a in actions ==> MovesOn(a)
    requires j <= |Kept(m, actions)| && j <= m.history.limit
    ensures var kept, end := Kept(m, actions), Run(m, actions);
            var undone := Run(end, Repeated(Undo, j));
            && undone.Drawing() == PlacesBack(kept, end.Drawing(), j)
            && (j == |kept| ==> (undone.Drawing() == start <==> StartIsKept(m, start, actions)))
            && Run(undone, Repeated(Redo, j)).history == end.history
  {
    var kept, end := Kept(m, actions), Run(m, actions);
    var limit := m.history.limit;
    assert end.history.limit == limit && end.history.past == LastN(m.history.past + kept, limit) by {
      RunKeeps(m, actions);
    }
    assert StartIsKept(m, start, actions) <==> PlacesBack(kept, end.Drawing(), |kept|) == start by {
      FirstKept(m, start, actions);
    }
    KeptComeBack(m.history, end, kept, start, StartIsKept(m, start, actions), j);
  }

  lemma KeptComeBack(h: History<Pixels>, end: Model, kept: seq<Pixels>, start: Pixels, first: bool, j: nat)
    requires end.history.limit == h.limit && end.history.past == LastN(h.past + kept, h.limit)
    requires j <= |kept| && j <= h.limit && (first <==> PlacesBack(kept, end.Drawing(), |kept|) == start)
    ensures var undone := Run(end, Repeated(Undo, j));
            && undone.Drawing() == PlacesBack(kept, end.Drawing(), j)
            && (j == |kept| ==> (undone.Drawing() == start <==> first))
            && Run(undone, Repeated(Redo, j)).history == end.history
  {
    BacksShowKept(end.history, h.past, kept, j);
    UndosThenRedos(end, j);
  }

  // ----- operations inside an open stroke -----

  /**
   * An edit inside an open stroke, then the rest of the stroke: undoing all that was committed returns to the drawing
   * at the press exactly when the stroke had painted nothing new, or the edit changed nothing.
   */
  lemma EditInsideStroke(m: Model, a: Action, through: seq<Point>)
    requires Bounded(m.history) && m.stroke.Some? && EditsNow(m, a)
    ensures var actions := [a] + (Continues(through) + [EndStroke]);
            |Kept(m, actions)| <= m.history.limit ==>
              (Run(Run(m, actions), Repeated(Undo, |Kept(m, actions)|)).Drawing() == m.stroke.value.before
               <==> m.Drawing() == m.stroke.value.before || Step(m, a).model.Drawing() == m.Drawing())
  {
    var before, actions := m.stroke.value.before, [a] + (Continues(through) + [EndStroke]);
    ContinuesAre(through);
    if |Kept(m, actions)| <= m.history.limit { UndosReturnToStart(m, actions, before, |Kept(m, actions)|); }
    assert actions[1..] == Continues(through) + [EndStroke];
    if !Commits(m, a) { RestOfStrokeKeepsStart(Step(m, a).model, through); }
  }

  lemma {:induction false} ContinuesAre(through: seq<Point>)
    ensures forall a :: a in Continues(through) ==> a.ContinueStroke?
    decreases |through|
  {
    if through != [] { ContinuesAre(through[1..]); }
  }

  lemma {:induction false} RestOfStrokeKeepsStart(m: Model, through: seq<Point>)
    requires m.stroke.Some?
    ensures StartIsKept(m, m.stroke.value.before, Continues(through) + [EndStroke])
    decreases |through|
  {
    var actions := Continues(through) + [EndStroke];
    if through == [] {
      assert actions[1..] == [];
    } else {
      assert actions[1..] == Continues(through[1..]) + [EndStroke];
      RestOfStrokeKeepsStart(Step(m, actions[0]).model, through[1..]);
    }
  }

  /**
   * Undo or redo inside an open stroke drops the stroke and files the half-drawn picture: going there and back shows
   * the drawing at the press exactly when the stroke had painted nothing new.
   */
  lemma UndoInsideStroke(m: Model)
    requires m.stroke.Some?
    ensures m.history.past != [] ==>
              (Undone(m).model.stroke == None
               && (Run(m, [Undo, Redo]).Drawing() == m.stroke.value.before <==> m.Drawing() == m.stroke.value.before))
    ensures m.history.future != [] ==>
              (Redone(m).model.stroke == None
               && (Run(m, [Redo, Undo]).Drawing() == m.stroke.value.before <==> m.Drawing() == m.stroke.value.before))
    ensures m.history.past == [] ==> Step(m, Undo) == Outcome(m, false)
    ensures m.history.future == [] ==> Step(m, Redo) == Outcome(m, false)
  {
    StrokeIsDropped(m);
    if m.history.past != [] {
      assert Run(m, [Undo, Redo]).Drawing() == m.Drawing() by { UndoThenRedo(m); ThereAndBack(m.history); }
    }
    if m.history.future != [] {
      assert Run(m, [Redo, Undo]).Drawing() == m.Drawing() by { RedoThenUndo(m); ThereAndBack(m.history); }
    }
  }

  lemma StrokeIsDropped(m: Model)
    ensures if m.history.past == [] then Step(m, Undo) == Outcome(m, false) else Undone(m).model.stroke == None
    ensures if m.history.future == [] then Step(m, Redo) == Outcome(m, false) else Redone(m).model.stroke == None
  {
  }

  lemma UndoThenRedo(m: Model)
    ensures Run(m, [Undo, Redo]).history == Forward(Back(m.history))
  {
    RunTwo(m, Undo, Redo);
    HistoryMoves(m);
    HistoryMoves(Step(m, Undo).model);
  }

  lemma RedoThenUndo(m: Model)
    ensures Run(m, [Redo, Undo]).history == Back(Forward(m.history))
  {
    RunTwo(m, Redo, Undo);
    HistoryMoves(m);
    HistoryMoves(Step(m, Redo).model);
  }

  lemma HistoryMoves(m: Model)
    ensures Step(m, Undo).model.history == Back(m.history) && Step(m, Redo).model.history == Forward(m.history)
  {
  }

  /**
   * Clearing inside a stroke that painted something: two edits are committed, and two undos show the half-drawn
   * stroke instead of the start.
   */
  lemma ClearInsideStrokeMissesStart(m: Model, a: Point)
    requires Bounded(m.history) && m.history.limit >= 2 && Opens(m, a)
    requires m.Drawing() != Blank() && Dotted(m, a) != m.Drawing() && Dotted(m, a) != Blank()
    ensures var actions := [BeginStroke(a.x, a.y), Clear, EndStroke];
            && Kept(m, actions) == [Dotted(m, a), m.Drawing()]
            && Run(Run(m, actions), Repeated(Undo, 2)).Drawing() == Dotted(m, a) != m.Drawing()
  {
    PressPaintsDot(m, a.x, a.y);
    PressClearRelease(m, a, Dotted(m, a));
    TwoUndosShowFirst(m, [BeginStroke(a.x, a.y), Clear, EndStroke], Dotted(m, a), m.Drawing());
  }

  /** The drawing after a press at a point. */
  function Dotted(m: Model, a: Point): Pixels
    requires OnCanvas(a.x, a.y)
  {
    m.Drawing()[IndexFor(a.x, a.y) := m.Ink()]
  }

  lemma PressClearRelease(m: Model, a: Point, dotted: Pixels)
    requires Opens(m, a) && m.Drawing() != Blank() && dotted != Blank()
    requires var n := Press(m, a.x, a.y).model;
             n.stroke.Some? && n.stroke.value.before == m.Drawing() && n.Drawing() == dotted
    ensures Kept(m, [BeginStroke(a.x, a.y), Clear, EndStroke]) == [dotted, m.Drawing()]
  {
    var press, n := BeginStroke(a.x, a.y), Press(m, a.x, a.y).model;
    assert Kept(m, [press] + [Clear, EndStroke]) == Kept(n, [Clear, EndStroke]) by {
      KeptFirst(m, press, [Clear, EndStroke]);
      PressKeepsNothing(m, a);
    }
    ClearThenRelease(n);
    assert [press] + [Clear, EndStroke] == [press, Clear, EndStroke];
  }

  lemma PressKeepsNothing(m: Model, a: Point)
    requires Opens(m, a)
    ensures Keeps(m, BeginStroke(a.x, a.y)) == []
  {
  }

  lemma KeptFirst(m: Model, a: Action, rest: seq<Action>)
    ensures Kept(m, [a] + rest) == Keeps(m, a) + Kept(Step(m, a).model, rest)
  {
    assert ([a] + rest)[1..] == rest;
  }

  lemma TwoUndosShowFirst(m: Model, actions: seq<Action>, first: Pixels, second: Pixels)
    requires Bounded(m.history) && m.history.limit >= 2 && forall a :: a in actions ==> MovesOn(a)
    requires Kept(m, actions) == [first, second]
    ensures Run(Run(m, actions), Repeated(Undo, 2)).Drawing() == first
  {
    UndosReturnToStart(m, actions, first, 2);
  }

  lemma ClearThenRelease(m: Model)
    requires m.stroke.Some? && m.Drawing() != Blank() && m.stroke.value.before != Blank()
    ensures Kept(m, [Clear, EndStroke]) == [m.Drawing(), m.stroke.value.before]
  {
    ClearKeeps(m);
    ReleaseKeeps(Edited(m, Blank()).model);
    TwoKept(m, Clear, EndStroke, m.Drawing(), m.stroke.value.before);
  }

  lemma ClearKeeps(m: Model)
    requires m.Drawing() != Blank()
    ensures Keeps(m, Clear) == [m.Drawing()]
  {
  }

  lemma ReleaseKeeps(m: Model)
    requires m.stroke.Some? && m.stroke.value.before != m.Drawing()
    ensures Keeps(m, EndStroke) == [m.stroke.value.before]
  {
  }

  lemma TwoKept(m: Model, a: Action, b: Action, x: Pixels, y: Pixels)
    requires Keeps(m, a) == [x] && Keeps(Step(m, a).model, b) == [y]
    ensures Kept(m, [a, b]) == [x, y]
  {
    KeptFirst(m, a, [b]);
    KeptFirst(Step(m, a).model, b, []);
    assert [a] + [b] == [a, b] && [b] + [] == [b];
  }

  // ----- a stroke that is begun again without being ended -----

  /**
   * A second press forgets the first part of a stroke. The whole is recorded as one change from the start exactly
   * when the first part had painted nothing new, or the second press missed the canvas (or the full stack holds
   * nothing but the snapshot that is pushed). If the second part paints something, one undo shows the start exactly
   * when the first part painted nothing new; if it paints nothing, nothing at all is recorded.
   */
  lemma RestartedStroke(m: Model, a: Point, first: seq<Point>, b: Point, second: seq<Point>)
    requires Bounded(m.history) && (m.tool.Pencil? || m.tool.Eraser?) && (m.stroke == None || OnCanvas(a.x, a.y))
    ensures var half := Run(m, [BeginStroke(a.x, a.y)] + Continues(first));
            var n := Run(half, [BeginStroke(b.x, b.y)] + (Continues(second) + [EndStroke]));
            && (n.history == Record(m.history, n.Drawing()) <==>
                  !OnCanvas(b.x, b.y)
                  || Interchangeable(m.history.(present := n.Drawing()), half.Drawing(), m.Drawing()))
            && (OnCanvas(b.x, b.y) && n.Drawing() != half.Drawing() ==>
                  (Undone(n).model.Drawing() == m.Drawing() <==> half.Drawing() == m.Drawing()))
            && (OnCanvas(b.x, b.y) && n.Drawing() == half.Drawing() ==> n.history == m.history.(present := n.Drawing()))
  {
    var half := Run(m, [BeginStroke(a.x, a.y)] + Continues(first));
    var n := Run(half, [BeginStroke(b.x, b.y)] + (Continues(second) + [EndStroke]));
    FirstPart(m, a, first);
    SecondPart(half, b, second);
    assert half.history.(present := n.Drawing()) == m.history.(present := n.Drawing());
    if OnCanvas(b.x, b.y) { LateSnapshot(m.history.(present := n.Drawing()), half.Drawing(), m.Drawing(), n); }
  }

  /** A second press that meets the canvas takes over; one that misses it lets the open stroke go on. */
  lemma SecondPart(half: Model, b: Point, second: seq<Point>)
    requires half.tool.Pencil? || half.tool.Eraser?
    ensures var n := Run(half, [BeginStroke(b.x, b.y)] + (Continues(second) + [EndStroke]));
            if OnCanvas(b.x, b.y) then n.history == Commit(half.history.(present := n.Drawing()), half.Drawing())
            else if half.stroke.None? then n == half
            else n.history == Commit(half.history.(present := n.Drawing()), half.stroke.value.before)
  {
    var again := Press(half, b.x, b.y).model;
    RunAppend(half, [BeginStroke(b.x, b.y)], Continues(second) + [EndStroke]);
    RunOne(half, BeginStroke(b.x, b.y));
    PressOpensOrEdits(half, b.x, b.y);
    DragThenRelease(again, second);
  }

  /** Committing a later snapshot than the start. */
  lemma LateSnapshot(h: History<Pixels>, late: Pixels, start: Pixels, n: Model)
    requires Bounded(h) && n.history == Commit(h, late)
    ensures n.history == Commit(h, start) <==> Interchangeable(h, late, start)
    ensures n.Drawing() != late ==> Undone(n).model.Drawing() == late
    ensures n.Drawing() == late ==> n.history == h
  {
    CommitsAgreeIff(h, late, start);
    if h.present != late { TopOfCommit(h, late); }
  }

  lemma FirstPart(m: Model, a: Point, first: seq<Point>)
    requires (m.tool.Pencil? || m.tool.Eraser?) && (m.stroke == None || OnCanvas(a.x, a.y))
    ensures var half := Run(m, [BeginStroke(a.x, a.y)] + Continues(first));
            && half.tool == m.tool && half.history == m.history.(present := half.Drawing())
            && (if OnCanvas(a.x, a.y) then half.stroke.Some? && half.stroke.value.before == m.Drawing() else half == m)
  {
    RunAppend(m, [BeginStroke(a.x, a.y)], Continues(first));
    RunOne(m, BeginStroke(a.x, a.y));
    PressOpensOrEdits(m, a.x, a.y);
    ContinuesOnlyPaint(Press(m, a.x, a.y).model, first);
  }

  /** A cell pressed twice is recorded by neither press: with nothing else to undo, no undo ever takes it back. */
  lemma PressedTwiceIsNeverUndone(m: Model, a: Point, j: nat)
    requires Bounded(m.history) && Opens(m, a) && m.history.past == []
    ensures var press := BeginStroke(a.x, a.y);
            Run(Run(m, [press, press, EndStroke]), Repeated(Undo, j)).Drawing() == Dotted(m, a)
  {
    var press := BeginStroke(a.x, a.y);
    var m1 := Press(m, a.x, a.y).model;
    var m2 := Press(m1, a.x, a.y).model;
    PressPaintsDot(m, a.x, a.y);
    PressPaintsDot(m1, a.x, a.y);
    assert m2.Drawing() == m1.Drawing();
    RunAppend(m, [press], [press, EndStroke]);
    RunOne(m, press);
    RunTwo(m1, press, EndStroke);
    assert [press] + [press, EndStroke] == [press, press, EndStroke];
    NothingToUndo(Release(m2).model, j);
  }

  lemma {:induction false} NothingToUndo(m: Model, j: nat)
    requires m.history.past == []
    ensures Run(m, Repeated(Undo, j)) == m
    decreases j
  {
    if j > 0 {
      assert Repeated(Undo, j)[1..] == Repeated(Undo, j - 1);
      NothingToUndo(m, j - 1);
    }
  }

  lemma PressPaintsDot(m: Model, x: int, y: int)
    requires Opens(m, Point(x, y))
    ensures var n := Press(m, x, y).model;
            && n.tool == m.tool && n.Ink() == m.Ink()
            && n.stroke == Some(Stroke(m.Drawing(), Point(x, y)))
            && n.Drawing() == Dotted(m, Point(x, y))
            && n.history == m.history.(present := n.Drawing())
  {
    DotPaintsOneCell(m.Drawing(), x, y, m.Ink());
  }

  /** A stroke that changed the drawing is undone in one step, back to the drawing its press saw. */
  lemma ReleaseThenUndo(m: Model)
    requires 0 < m.history.limit && m.stroke.Some? && m.stroke.value.before != m.Drawing()
    ensures Run(m, [EndStroke, Undo]).Drawing() == m.stroke.value.before
  {
    RunTwo(m, EndStroke, Undo);
    UndoneRelease(m);
  }

  lemma UndoneRelease(m: Model)
    requires 0 < m.history.limit && m.stroke.Some? && m.stroke.value.before != m.Drawing()
    ensures Undone(Release(m).model).model.Drawing() == m.stroke.value.before
  {
  }

  lemma DotPaintsOneCell(p: Pixels, x: int, y: int, value: Color)
    requires OnCanvas(x, y)
    ensures Drawn(p, IdealLine(x, y, x, y), value) == p[IndexFor(x, y) := value]
  {
    var line := IdealLine(x, y, x, y);
    LineJoinsEndpoints(x, y, x, y);
    assert line == [Point(x, y)];
    forall k | IsCell(k) ensures Covers(line, k) <==> k == IndexFor(x, y) {
      if k == IndexFor(x, y) { assert IndexFor(line[0].x, line[0].y) == k; }
    }
  }
}
