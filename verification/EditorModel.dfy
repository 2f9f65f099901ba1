/**
 * The editor object. Drawings are heap arrays painted in place, so its correctness rests on no two of its
 * arrays ever being the same object.
 */
module Editor {
  import opened Wrappers
  import opened Canvas
  import opened Lines
  import F = FloodFill
  import opened Flips
  import opened Palettes
  import opened Sequences
  import opened Timeline
  import opened EditorHistory
  import opened Drafts

  /** A stack of arrays holds these drawings, oldest first. */
  ghost predicate Holds(stack: seq<array<Color>>, drawings: seq<Pixels>)
    reads stack
  {
    |stack| == |drawings| && forall i :: 0 <= i < |stack| ==> stack[i][..] == drawings[i]
  }

  /** No array is held twice: not by two fields, not by two stack entries, not across the stacks. */
  ghost predicate Unshared(undo: seq<array<Color>>, pixels: array<Color>, redo: seq<array<Color>>,
      stroke: array?<Color>) {
    && pixels !in undo && pixels !in redo && pixels != stroke
    && stroke !in undo && stroke !in redo
    && (forall a :: a in undo ==> a !in redo)
    && Distinct(undo) && Distinct(redo)
  }

  lemma CommitIsUnshared(undo: seq<array<Color>>, pixels: array<Color>, redo: seq<array<Color>>,
      stroke: array?<Color>, before: array<Color>)
    requires Unshared(undo, pixels, redo, stroke)
    requires before !in undo && before != pixels && before !in redo && before != stroke
    ensures Unshared(undo + [before], pixels, [], stroke)
    ensures Unshared((undo + [before])[1..], pixels, [], stroke)
  {
    assert forall a :: a in (undo + [before])[1..] ==> a in undo + [before];
  }

  lemma HoldsMoved(from: seq<array<Color>>, fromDrawings: seq<Pixels>, to: seq<array<Color>>, toDrawings: seq<Pixels>,
                   copy: array<Color>, drawing: Pixels)
    requires |from| > 0 && Holds(from, fromDrawings) && Holds(to, toDrawings) && copy[..] == drawing
    ensures from[|from| - 1].Length == PIXEL_COUNT
    ensures Holds(from[..|from| - 1], fromDrawings[..|fromDrawings| - 1])
    ensures from[|from| - 1][..] == fromDrawings[|fromDrawings| - 1]
    ensures Holds(to + [copy], toDrawings + [drawing])
  {
  }

  /** Undo and redo move the top array of one stack into the painted place and push a fresh copy on the other. */
  lemma MoveIsUnshared(undo: seq<array<Color>>, pixels: array<Color>, redo: seq<array<Color>>, stroke: array?<Color>,
      copy: array<Color>)
    requires Unshared(undo, pixels, redo, stroke)
    requires copy !in undo && copy != pixels && copy !in redo && copy != stroke
    ensures |undo| > 0 ==> Unshared(undo[..|undo| - 1], undo[|undo| - 1], redo + [copy], null)
    ensures |redo| > 0 ==> Unshared(undo + [copy], redo[|redo| - 1], redo[..|redo| - 1], null)
    ensures |undo| > 0 ==> undo[|undo| - 1] in undo && forall a :: a in undo[..|undo| - 1] ==> a in undo
    ensures |redo| > 0 ==> redo[|redo| - 1] in redo && forall a :: a in redo[..|redo| - 1] ==> a in redo
    ensures forall a :: a in undo + [copy] ==> a in undo || a == copy
    ensures forall a :: a in redo + [copy] ==> a in redo || a == copy
  {
    if |undo| > 0 { TopIsNotBelow(undo); }
    if |redo| > 0 { TopIsNotBelow(redo); }
  }

  lemma TopIsNotBelow(stack: seq<array<Color>>)
    requires |stack| > 0 && Distinct(stack)
    ensures var top, rest := stack[|stack| - 1], stack[..|stack| - 1];
            top !in rest && Distinct(rest) && forall a :: a in stack <==> a in rest || a == top
  {
    assert stack == stack[..|stack| - 1] + [stack[|stack| - 1]];
  }

  class EditorModel {
    /** What the arrays in the two stacks and in `strokeBefore` hold. */
    ghost var past: seq<Pixels>
    ghost var future: seq<Pixels>
    ghost var strokeDrawing: Pixels

    const catalog: seq<Palette>
    const historyLimit: nat
    var pixels: array<Color>
    var selected: Color
    var tool: Tool
    var paletteId: string
    var paletteVersion: int
    var cursor: Point
    var undoStack: seq<array<Color>>
    var redoStack: seq<array<Color>>
    var strokeBefore: array?<Color>
    var lastPoint: Option<Point>

    /** Every array the editor holds besides the one being painted. */
    ghost function Snapshots(): set<object>
      reads this`undoStack, this`redoStack, this`strokeBefore
    {
      (set a | a in undoStack) + (set a | a in redoStack) + (if strokeBefore == null then {} else {strokeBefore})
    }

    ghost function Footprint(): set<object>
      reads this`pixels, this`undoStack, this`redoStack, this`strokeBefore
    {
      {pixels} + Snapshots()
    }

    /** The part of the invariant that painting in place cannot touch. */
    ghost predicate Stacked()
      reads this`pixels, this`undoStack, this`redoStack, this`strokeBefore, this`lastPoint
      reads this`past, this`future, this`strokeDrawing, Snapshots()
    {
      && Unshared(undoStack, pixels, redoStack, strokeBefore)
      && pixels.Length == PIXEL_COUNT
      && Holds(undoStack, past)
      && Holds(redoStack, future)
      && (strokeBefore == null <==> lastPoint.None?)
      && (strokeBefore != null ==> strokeBefore[..] == strokeDrawing)
    }

    ghost predicate Valid()
      reads this, Footprint()
    {
      Stacked() && HasDefault(catalog) && EditorHistory.Valid(View())
    }

    /** The abstract state. */
    ghost function View(): Model
      requires pixels.Length == PIXEL_COUNT
      reads this, pixels
    {
      Model(catalog, selected, tool, paletteId, paletteVersion, cursor, History(historyLimit, past, pixels[..], future),
            if lastPoint.None? then None else Some(Stroke(strokeDrawing, lastPoint.value)))
    }

    constructor (catalog: seq<Palette>, options: Fields)
      requires HasDefault(catalog)
      ensures Valid() && fresh(Footprint())
      ensures View() == FromOptions(catalog, options)
    {
      var m := FromOptions(catalog, options);
      this.catalog, historyLimit := catalog, m.history.limit;
      pixels := new Color[PIXEL_COUNT](i requires 0 <= i < PIXEL_COUNT => m.Drawing()[i]);
      selected, tool, paletteId, paletteVersion, cursor := m.selected, m.tool, m.paletteId, m.paletteVersion, m.cursor;
      undoStack, redoStack, past, future := [], [], [], [];
      strokeBefore, lastPoint := null, None;
      new;
      assert pixels[..] == m.Drawing();
      NewEditorIsValid(catalog, options);
    }

    // ----- settings -----

    method SetSelected(value: int) returns (ok: bool)
      requires Valid()
      modifies this`selected
      ensures Valid() && Footprint() == old(Footprint())
      ensures Outcome(View(), ok) == Step(old(View()), Action.SetSelected(value))
    {
      if value < 0 || value >= COLOR_COUNT { return false; }
      selected := value;
      return true;
    }

    method SetTool(name: string) returns (ok: bool)
      requires Valid()
      modifies this`tool
      ensures Valid() && Footprint() == old(Footprint())
      ensures Outcome(View(), ok) == Step(old(View()), Action.SetTool(name))
    {
      if ToolNamed(name).None? { return false; }
      tool := ToolNamed(name).value;
      return true;
    }

    method SetPalette(id: string, version: int) returns (ok: bool)
      requires Valid()
      modifies this`paletteId, this`paletteVersion
      ensures Valid() && Footprint() == old(Footprint())
      ensures Outcome(View(), ok) == Step(old(View()), Action.SetPalette(id, version))
    {
      if !Listed(catalog, id, version) { return false; }
      paletteId, paletteVersion := id, version;
      return true;
    }

    method SetCursor(x: int, y: int) returns (ok: bool)
      requires Valid()
      modifies this`cursor
      ensures Valid() && Footprint() == old(Footprint())
      ensures Outcome(View(), ok) == Step(old(View()), Action.SetCursor(x, y))
    {
      if !OnCanvas(x, y) { return false; }
      cursor := Point(x, y);
      return true;
    }

    method MoveCursor(dx: int, dy: int)
      requires Valid()
      modifies this`cursor
      ensures Valid() && Footprint() == old(Footprint())
      ensures View() == Step(old(View()), Action.MoveCursor(dx, dy)).model
    {
      cursor := Point(Clamp(cursor.x + dx, WIDTH), Clamp(cursor.y + dy, HEIGHT));
    }

    // ----- painting in place -----

    /** A copy that shares nothing with the editor. */
    method Snapshot() returns (copy: array<Color>)
      requires pixels.Length == PIXEL_COUNT
      ensures fresh(copy) && copy.Length == PIXEL_COUNT && copy[..] == pixels[..]
    {
      copy := new Color[PIXEL_COUNT](i requires 0 <= i < PIXEL_COUNT && pixels.Length == PIXEL_COUNT
        reads this, pixels => pixels[i]);
    }

    method PaintLine(x0: int, y0: int, x1: int, y1: int)
      requires pixels.Length == PIXEL_COUNT && OnCanvas(x0, y0) && OnCanvas(x1, y1)
      modifies pixels
      ensures pixels[..] == Drawn(old(pixels[..]), IdealLine(x0, y0, x1, y1), if tool == Eraser then 0 else selected)
    {
      var value := if tool == Eraser then 0 else selected;
      var points := LinePoints(x0, y0, x1, y1);
      LineStaysOnCanvas(x0, y0, x1, y1);
      PaintPoints(points, value);
    }

    method PaintPoints(points: seq<Point>, value: Color)
      requires pixels.Length == PIXEL_COUNT && forall p :: p in points ==> OnCanvas(p.x, p.y)
      modifies pixels
      ensures pixels[..] == Drawn(old(pixels[..]), points, value)
    {
      for n := 0 to |points|
        invariant forall k :: IsCell(k) ==> pixels[k] == if Covers(points[..n], k) then value else old(pixels[k])
      {
        var k := IndexFor(points[n].x, points[n].y);
        CoversOneMore(points, n);
        pixels[k] := value;
      }
      assert points[..|points|] == points;
    }

    /** Keeps `before` as an undo step if the drawing changed; drops the oldest step beyond the limit. */
    method Commit(before: array<Color>) returns (ok: bool)
      requires Valid() && before.Length == PIXEL_COUNT && before !in Footprint()
      modifies this`undoStack, this`redoStack, this`past, this`future
      ensures Valid() && Footprint() <= old(Footprint()) + {before}
      ensures Outcome(View(), ok) == Committed(old(View()), before[..])
    {
      if before[..] == pixels[..] { return false; }
      CommitIsUnshared(undoStack, pixels, redoStack, strokeBefore, before);
      ghost var was := View();
      past, future := Committed(was, before[..]).model.history.past, [];
      undoStack := undoStack + [before];
      if |undoStack| > historyLimit {
        undoStack := undoStack[1..];
      }
      redoStack := [];
      return true;
    }

    // ----- strokes and single edits -----

    method PickColor(x: int, y: int)
      requires Valid() && OnCanvas(x, y)
      modifies this`selected
      ensures Valid() && Footprint() == old(Footprint())
      ensures View() == old(View()).(selected := old(View()).Drawing()[IndexFor(x, y)])
    {
      selected := pixels[IndexFor(x, y)];
    }

    method FillAt(x: int, y: int) returns (ok: bool)
      requires Valid() && OnCanvas(x, y)
      modifies this`undoStack, this`redoStack, this`past, this`future, pixels
      ensures Valid() && fresh(Footprint() - old(Footprint()))
      ensures Outcome(View(), ok) == Edited(old(View()), F.Filled(old(View()).Drawing(), IndexFor(x, y), selected))
    {
      var before := Snapshot();
      var _, _ := F.Fill(pixels, x, y, selected);
      ok := Commit(before);
    }

    method DotAt(x: int, y: int) returns (ok: bool)
      requires Valid() && OnCanvas(x, y)
      modifies this`undoStack, this`redoStack, this`past, this`future, pixels
      ensures Valid() && fresh(Footprint() - old(Footprint()))
      ensures Outcome(View(), ok) == Edited(old(View()), old(View()).Drawing()[IndexFor(x, y) := old(View()).Ink()])
    {
      var before := Snapshot();
      pixels[IndexFor(x, y)] := if tool == Eraser then 0 else selected;
      assert pixels[..] == old(pixels[..])[IndexFor(x, y) := if tool == Eraser then 0 else selected];
      ok := Commit(before);
    }

    method OpenStroke(x: int, y: int)
      requires Valid() && OnCanvas(x, y)
      modifies this`strokeBefore, this`strokeDrawing, this`lastPoint
      ensures Valid() && fresh(Footprint() - old(Footprint())) && pixels !in Snapshots()
      ensures View() == old(View()).(stroke := Some(Stroke(old(View()).Drawing(), Point(x, y))))
    {
      var copy := Snapshot();
      strokeBefore := copy;
      strokeDrawing := copy[..];
      lastPoint := Some(Point(x, y));
    }

    /** Opens a stroke and paints its first cell. */
    method StartStroke(x: int, y: int)
      requires Valid() && OnCanvas(x, y)
      modifies this`strokeBefore, this`strokeDrawing, this`lastPoint, pixels
      ensures Valid() && fresh(Footprint() - old(Footprint()))
      ensures View() == old(View()).(stroke := Some(Stroke(old(View()).Drawing(), Point(x, y))))
                         .Show(Drawn(old(View()).Drawing(), IdealLine(x, y, x, y), old(View()).Ink()))
    {
      OpenStroke(x, y);
      PaintLine(x, y, x, y);
    }

    method CloseStroke()
      requires Valid()
      modifies this`strokeBefore, this`lastPoint
      ensures Valid() && Footprint() <= old(Footprint()) && strokeBefore == null
      ensures View() == old(View()).(stroke := None)
    {
      strokeBefore := null;
      lastPoint := None;
    }

    method BeginStroke(x: int, y: int) returns (ok: bool)
      requires Valid()
      modifies this, pixels
      ensures Valid() && fresh(Footprint() - old(Footprint()))
      ensures Outcome(View(), ok) == Press(old(View()), x, y)
    {
      var placed := SetCursor(x, y);
      if !placed { return false; }
      if tool == Eyedropper {
        PickColor(x, y);
        return false;
      }
      if tool == Fill {
        ok := FillAt(x, y);
        return;
      }
      StartStroke(x, y);
      return true;
    }

    method ContinueStroke(x: int, y: int) returns (ok: bool)
      requires Valid()
      modifies this, pixels
      ensures Valid() && fresh(Footprint() - old(Footprint()))
      ensures Outcome(View(), ok) == DragTo(old(View()), x, y)
    {
      if strokeBefore == null { return false; }
      var placed := SetCursor(x, y);
      if !placed { return false; }
      PaintLine(lastPoint.value.x, lastPoint.value.y, x, y);
      lastPoint := Some(Point(x, y));
      return true;
    }

    method EndStroke() returns (ok: bool)
      requires Valid()
      modifies this
      ensures Valid() && Footprint() <= old(Footprint())
      ensures Outcome(View(), ok) == Release(old(View()))
    {
      if strokeBefore == null { return false; }
      var before: array<Color> := strokeBefore;
      CloseStroke();
      ok := Commit(before);
    }

    method ApplyAt(x: int, y: int) returns (ok: bool)
      requires Valid()
      modifies this, pixels
      ensures Valid() && fresh(Footprint() - old(Footprint()))
      ensures Outcome(View(), ok) == Click(old(View()), x, y)
    {
      var placed := SetCursor(x, y);
      if !placed { return false; }
      if tool == Eyedropper {
        PickColor(x, y);
        return false;
      }
      if tool == Fill {
        ok := FillAt(x, y);
      } else {
        ok := DotAt(x, y);
      }
    }

    method Erase()
      requires pixels.Length == PIXEL_COUNT
      modifies pixels
      ensures pixels[..] == Blank()
    {
      forall k | 0 <= k < PIXEL_COUNT { pixels[k] := 0; }
    }

    method Clear() returns (ok: bool)
      requires Valid()
      modifies this`undoStack, this`redoStack, this`past, this`future, pixels
      ensures Valid() && fresh(Footprint() - old(Footprint()))
      ensures Outcome(View(), ok) == Edited(old(View()), Blank())
    {
      var before := Snapshot();
      Erase();
      ok := Commit(before);
    }

    method FlipHorizontal() returns (ok: bool)
      requires Valid()
      modifies this
      ensures Valid() && fresh(Footprint() - old(Footprint()))
      ensures Outcome(View(), ok) == Edited(old(View()), Flipped(Horizontal, old(View()).Drawing()))
    {
      var before := Snapshot();
      var flipped := FlippedHorizontally(pixels);
      pixels := flipped;
      ok := Commit(before);
    }

    method FlipVertical() returns (ok: bool)
      requires Valid()
      modifies this
      ensures Valid() && fresh(Footprint() - old(Footprint()))
      ensures Outcome(View(), ok) == Edited(old(View()), Flipped(Vertical, old(View()).Drawing()))
    {
      var before := Snapshot();
      var flipped := FlippedVertically(pixels);
      pixels := flipped;
      ok := Commit(before);
    }

    // ----- history -----

    /** Puts other arrays in place of the current drawing and the two stacks. */
    method Install(px: array<Color>, undo: seq<array<Color>>, redo: seq<array<Color>>, ghost was: seq<Pixels>,
        ghost next: seq<Pixels>)
      requires Valid() && strokeBefore == null
      requires px.Length == PIXEL_COUNT && Unshared(undo, px, redo, null) && Holds(undo, was) && Holds(redo, next)
      requires |was| + |next| <= historyLimit
      modifies this`pixels, this`undoStack, this`redoStack, this`past, this`future
      ensures Valid() && pixels == px && undoStack == undo && redoStack == redo && strokeBefore == null
      ensures View() == old(View()).(history := History(historyLimit, was, px[..], next))
    {
      pixels, undoStack, redoStack := px, undo, redo;
      past, future := was, next;
    }

    method Undo() returns (ok: bool)
      requires Valid()
      modifies this
      ensures Valid() && fresh(Footprint() - old(Footprint()))
      ensures Outcome(View(), ok) == Undone(old(View()))
    {
      if |undoStack| == 0 { return false; }
      var copy := Snapshot();
      CloseStroke();
      var top, rest, grown := undoStack[|undoStack| - 1], undoStack[..|undoStack| - 1], redoStack + [copy];
      MoveIsUnshared(undoStack, pixels, redoStack, strokeBefore, copy);
      HoldsMoved(undoStack, past, redoStack, future, copy, pixels[..]);
      Install(top, rest, grown, past[..|past| - 1], future + [pixels[..]]);
      return true;
    }

    method Redo() returns (ok: bool)
      requires Valid()
      modifies this
      ensures Valid() && fresh(Footprint() - old(Footprint()))
      ensures Outcome(View(), ok) == Redone(old(View()))
    {
      if |redoStack| == 0 { return false; }
      var copy := Snapshot();
      CloseStroke();
      var top, rest, grown := redoStack[|redoStack| - 1], redoStack[..|redoStack| - 1], undoStack + [copy];
      MoveIsUnshared(undoStack, pixels, redoStack, strokeBefore, copy);
      HoldsMoved(redoStack, future, undoStack, past, copy, pixels[..]);
      Install(top, grown, rest, past + [pixels[..]], future[..|future| - 1]);
      return true;
    }

    method Draft(alias: JsValue, parent: JsValue) returns (draft: Fields)
      requires Valid()
      ensures draft == DraftOf(View(), alias, parent)
      ensures ValidateDraft(catalog, Obj(draft)) == Some(draft)
    {
      DraftPassesValidation(View(), alias, parent);
      draft := map["version" := Int(DRAFT_VERSION), "pixels" := FromPixels(pixels[..]),
                   "alias" := if ValidAlias(alias) then alias else Str(""), "selected" := Int(selected),
                   "tool" := Str(ToolName(tool)), "parentId" := if ValidParent(parent) then parent else Null,
                   "paletteId" := Str(paletteId), "paletteVersion" := Int(paletteVersion)];
    }

    // ----- whole runs -----

    method Perform(a: Action) returns (ok: bool)
      requires Valid()
      modifies this, Footprint()
      ensures Valid() && fresh(Footprint() - old(Footprint()))
      ensures Outcome(View(), ok) == Step(old(View()), a)
    {
      match a
      case BeginStroke(x, y) => ok := BeginStroke(x, y);
      case ContinueStroke(x, y) => ok := ContinueStroke(x, y);
      case EndStroke => ok := EndStroke();
      case ApplyAt(x, y) => ok := ApplyAt(x, y);
      case Clear => ok := Clear();
      case Flip(axis) =>
        if axis == Horizontal { ok := FlipHorizontal(); } else { ok := FlipVertical(); }
      case Undo => ok := Undo();
      case Redo => ok := Redo();
      case _ => ok := Adjust(a);
    }

    /** The operations that leave every array alone. */
    method Adjust(a: Action) returns (ok: bool)
      requires Valid() && (a.SetSelected? || a.SetTool? || a.SetPalette? || a.SetCursor? || a.MoveCursor?)
      modifies this`selected, this`tool, this`paletteId, this`paletteVersion, this`cursor
      ensures Valid() && Footprint() == old(Footprint())
      ensures Outcome(View(), ok) == Step(old(View()), a)
    {
      match a
      case SetSelected(value) => ok := SetSelected(value);
      case SetTool(name) => ok := SetTool(name);
      case SetPalette(id, version) => ok := SetPalette(id, version);
      case SetCursor(x, y) => ok := SetCursor(x, y);
      case MoveCursor(dx, dy) => MoveCursor(dx, dy); ok := true;
    }

    /** On every run the object built from mutable arrays agrees with the value model. */
    method Replay(actions: seq<Action>)
      requires Valid()
      modifies this, Footprint()
      ensures Valid() && fresh(Footprint() - old(Footprint()))
      ensures View() == Run(old(View()), actions)
    {
      ghost var start := View();
      for i := 0 to |actions|
        invariant Valid() && fresh(Footprint() - old(Footprint()))
        invariant View() == Run(start, actions[..i])
      {
        assert actions[..i + 1] == actions[..i] + [actions[i]];
        RunAppend(start, actions[..i], [actions[i]]);
        RunOne(View(), actions[i]);
        var _ := Perform(actions[i]);
      }
      assert actions[..|actions|] == actions;
    }
  }
}
