# Pixelgrama, modelled and proved

Pixelgrama is a public wall of 16x16 pixel postcards: a browser editor draws them, a server stores, moderates, lists and
renders them. This project models the parts of it that loop, mutate, interleave or do arithmetic, and proves what they
promise. `dafny verify dfyconfig.toml` checks all of it.

## What is modelled

- **The editor.** `Lines` (integer line interpolation), `FloodFill` (in-place stack-driven fill), `Flips`, and the editor
  itself twice: `EditorHistory` says on values what each operation does (its bounded undo history is `Timeline`, over any
  kind of drawing), and the class `Editor.EditorModel` does it on heap arrays painted in place. The class keeps, for every
  run, that no two of its arrays are the same object; `Replay` shows that it agrees with the value model on every sequence
  of operations. `Painting` says cell by cell what the operations put on the screen. `Drafts` validates untrusted saved
  values and carries a drawing from one session to the next.
- **The store.** `PostcardStore` has the tables as a value and each transaction as one step; `Submissions` says when a step
  is accepted, what the store then holds and what the public reads. `StoreInvariants`, `Deduplication` (over `Neighbours`),
  `Queries`, `Pagination`, `Weekly` and `Stats` are about runs of those steps and reads between them; `StoreObject` is the
  object with its row loops, in-place reversal and counting map. `Migrations` and `Database` bring a file of any earlier
  schema version up to date.
- **The rate limiter.** `RateLimiter` has one call as a relation (which of several equally old entries is evicted is left
  open, as the iteration order of a map is) and the object that performs it; `RateLimiterRuns` is about every run, and
  `RateLimiterCrowds` about callers with more keys than the table has room for.
- **Rendering and identity.** `Rendering` has the painting loops against closed-form pictures, `ContentIdentity` the bytes
  a content hash is computed from, `Timestamps` the stored time text, `Weeks` the calendar and the weekly windows. `Binary`
  connects these with the shipped catalog.

The hash function, the clock readings and the palette catalog are parameters; `Binary` fixes the catalog and the time format
and leaves the hash function a parameter. The limiter's clock is assumed not to go back.

## Where the code differs from what one might expect

- The weekly queries compare stored time text. Its fraction is written without trailing zeros and not at all for a whole
  second, and '.' sorts before 'Z', so an instant strictly inside the first second after a week's start is counted in the
  week before (`Timestamps.TextWindowIsExactWhen` gives the exact condition, `HalfASecondIntoTheWeekIsMissed` an instance).
  The repository's README says out-of-week content is excluded; the model follows the code. Every moment is still counted
  in exactly one week (`Weeks.WeeksPartitionMoments`).
- Neighbouring visible postcards can be equal, and only moderation does it: hiding the row between two equal ones
  (`Deduplication.HidingTheMiddleMakesEqualNeighbours`) or restoring a row next to an equal one
  (`RestoringMakesEqualNeighbours`). `NeighboursStayDifferentIff` gives the condition to check before each transaction.
- As many undos as there were committed edits do not always return to the start. An edit, undo or redo inside an open
  stroke files the half-drawn picture, and a second press forgets the first part of the stroke.
  `EditorHistory.UndosReturnToStart` gives the exact condition for every run; `EditInsideStroke`, `UndoInsideStroke` and
  `RestartedStroke` say it operation by operation: the stroke had painted nothing new. `ClearInsideStrokeMissesStart` and
  `PressedTwiceIsNeverUndone` are inputs on which it fails.
- A key evicted from the limiter's table starts over, so twice the limit per window is kept for all callers exactly when
  the table has room for every key (`RateLimiterCrowds.BoundHoldsIff`). With one key too many calling in turn a tick apart
  within one window, no choice of the evicted entry saves the bound (`NoChoiceSavesTheBound`).

## Model

| member | source | states |
|---|---|---|
| `Lines.LinePoints` | internal/app/web/editor.js:102-128 | the error-accumulating loop terminates and returns, point by point, the exact line rounded to the nearest pixel in the direction of travel |
| `Lines.RoundedIsNearest` | internal/app/web/editor.js:117-125 | the reference rounding is the one integer within half a step, exact halves upward |
| `Lines.StepDecision` | internal/app/web/editor.js:117-125 | each of the loop's two tests on the error is true exactly when that axis' rounded coordinate advances |
| `Lines.LineJoinsEndpoints` | internal/app/web/editor.js:102-128 | the line starts and ends at the given endpoints |
| `Lines.LineIsConnected` | internal/app/web/editor.js:112-126 | every move changes some axis by one and no axis by more |
| `Lines.LineIsAccurate` | internal/app/web/editor.js:110-126 | no point is further than half a pixel from the ideal line, stated as a cross product |
| `Lines.LineStaysInBox` | internal/app/web/editor.js:102-128 | no point leaves the rectangle of the endpoints |
| `Lines.LineStaysOnCanvas` | internal/app/web/editor.js:513-518 | a stroke between canvas points never paints outside the canvas |
| `Lines.LineMirrorsX` | internal/app/web/editor.js:106-109 | mirrored endpoints give the mirrored points, vertical lines with their unused direction included |
| `Lines.LineMirrorsY` | internal/app/web/editor.js:106-109 | the same for the other axis |
| `FloodFill.Fill` | internal/app/web/editor.js:130-155 | recolours exactly the 4-connected component of the start, reports a change iff the colour differs, and pops once per recoloured cell |
| `FloodFill.VisitNeighbours` | internal/app/web/editor.js:147-152 | paints and pushes exactly the neighbours still showing the target colour, keeping unfilled cells plus stack constant |
| `FloodFill.Neighbours` | internal/app/web/editor.js:140-146 | the four guarded pushes list exactly the cells one step away on the canvas |
| `FloodFill.FillStep` | internal/app/web/editor.js:138-153 | one pop keeps: changed cells are reachable, and cells off the stack have no target neighbour |
| `FloodFill.ComponentIsLeast` | internal/app/web/editor.js:130-155 | a set closed under equally coloured neighbours that holds the start holds its whole component |
| `FloodFill.FillIsComplete` | internal/app/web/editor.js:138-154 | when the stack is empty nothing reachable is left unpainted |
| `Flips.FlippedHorizontally` | internal/app/web/editor.js:157-165 | the nested loops build a fresh array with every row reversed |
| `Flips.FlippedVertically` | internal/app/web/editor.js:167-175 | the nested loops build a fresh array with the rows reversed |
| `Flips.FlipIsInvolution` | internal/app/web/editor.js:157-175 | flipping twice on one axis restores the drawing |
| `Flips.FlipsCommute` | internal/app/web/editor.js:157-175 | the two flips commute |
| `Flips.FlipKeepsColours` | internal/app/web/editor.js:157-175 | a flip keeps the multiset of pixels |
| `Flips.FillCommutesWithFlip` | internal/app/web/editor.js:130-175 | filling then flipping equals flipping then filling at the mirrored cell |
| `Flips.LineCommutesWithFlip` | internal/app/web/editor.js:102-175 | drawing a line then flipping equals flipping then drawing between mirrored endpoints |
| `Timeline.MovesKeepBound` | internal/app/web/editor.js:538-570 | both stacks together stay within the limit although only a commit checks one of them |
| `Timeline.BackKeepsLine` | internal/app/web/editor.js:538-547 | undo leaves the line of past, present and future drawings unchanged |
| `Timeline.ForwardKeepsLine` | internal/app/web/editor.js:549-558 | so does redo |
| `Timeline.BacksReachSnapshot` | internal/app/web/editor.js:538-547 | j undos show the j-th snapshot from the top |
| `Timeline.ForwardsReachSnapshot` | internal/app/web/editor.js:549-558 | j redos show the j-th snapshot of the redo stack |
| `Timeline.ForwardsInvertBacks` | internal/app/web/editor.js:538-558 | as many redos as undos restore both stacks and the drawing |
| `Timeline.PastIsReplacedDrawings` | internal/app/web/editor.js:560-570 | after any edits the undo stack is exactly the last `limit` replaced drawings |
| `Timeline.BacksReturnToStart` | internal/app/web/editor.js:538-570 | undoing every change within the limit shows the starting drawing |
| `Timeline.CommitsAgreeIff` | internal/app/web/editor.js:560-570 | committing with two different snapshots leaves one history only if a full stack holds nothing but the one that is pushed |
| `Timeline.EditThenCommitIsRecordIff` | internal/app/web/editor.js:560-570 | an edit followed by a commit leaves one undo step iff the commit adds nothing and the edit something, or a full stack hides what was pushed |
| `EditorHistory.RunKeepsValid` | internal/app/web/editor.js:391-570 | every reachable state has its cursor on the canvas, a listed palette and at most `limit` snapshots |
| `EditorHistory.HistoryHoldsOnlyShownDrawings` | internal/app/web/editor.js:458-570 | on any run each stored snapshot was once on screen |
| `EditorHistory.GestureIsOneUndoStep` | internal/app/web/editor.js:458-536 | from any state a click, an edit or a pointer stroke is one undo step from the drawing it finds to the one it leaves; a drag whose press opens no stroke while another is open is one exactly under a stated condition on the open stroke's snapshot |
| `EditorHistory.StepKeeps` | internal/app/web/editor.js:496-570 | an edit or release reports success exactly when it commits, and then the undo stack gains its snapshot, trimmed to the limit |
| `EditorHistory.UndosReturnToStart` | internal/app/web/editor.js:458-570 | for every run without undo and redo: j undos show the j-th last snapshot kept, and undoing every committed edit returns to the start iff the first committed edit kept the start; redos restore the end |
| `EditorHistory.CompleteGesturesReturnToStart` | internal/app/web/editor.js:458-570 | runs that finish each stroke before anything else meet that condition, every undo showing the drawing the change replaced |
| `EditorHistory.EditInsideStroke` | internal/app/web/editor.js:477-536 | for any click, clear, flip or fill press inside a stroke and any drags after it: undoing all commits shows the drawing at the press iff the stroke had painted nothing new or the edit changed nothing |
| `EditorHistory.UndoInsideStroke` | internal/app/web/editor.js:538-558 | undo or redo inside a stroke drops it; going there and back shows the drawing at the press iff the stroke had painted nothing new |
| `EditorHistory.ReleaseThenUndo` | internal/app/web/editor.js:486-494 | one undo takes back a whole stroke, however many segments it had |
| `EditorHistory.RestartedStroke` | internal/app/web/editor.js:458-494 | with any drags before and after a second press, the whole is one recorded change iff the first part painted nothing new (or the press missed, or a full stack hides the difference); one undo returns to the start iff so; nothing is recorded if the second part paints nothing |
| `EditorHistory.ClearInsideStrokeMissesStart` | internal/app/web/editor.js:520-524 | press, clear, release: two commits, and two undos show the half-drawn stroke |
| `EditorHistory.PressedTwiceIsNeverUndone` | internal/app/web/editor.js:466-470 | a cell pressed twice with nothing else to undo stays painted after any number of undos |
| `Painting.PressDoes` | internal/app/web/editor.js:458-475 | a press of pencil or eraser paints its cell in the ink and opens a stroke that remembers the drawing before it, changing nothing else |
| `Painting.ReportsAre` | internal/app/web/editor.js:458-558 | presses, drags, undo and redo report success exactly when there is a canvas cell, an open stroke or somewhere to go |
| `Painting.ContinuePaintsLine` | internal/app/web/editor.js:477-484 | continuing an open stroke paints exactly the cells of the line from its last point to the new one, and moves only cursor and last point besides |
| `Painting.DragPaintsPath` | internal/app/web/editor.js:477-484 | a drag over any points paints exactly the lines between those on the canvas |
| `Painting.StrokePaintsPath` | internal/app/web/editor.js:458-494 | a whole pencil or eraser stroke paints a gapless path on the canvas from the press through every point of the drag, and nothing else |
| `Painting.ClickDoes` | internal/app/web/editor.js:496-511 | what a click does with each tool, cell by cell: one cell in the ink, 0 for the eraser, the connected region, or only the picked colour |
| `Painting.FlipDoes` | internal/app/web/editor.js:157-175 | the cell in column x of row y shows column 15-x, or row 15-y |
| `Painting.AdjacentCells` | internal/app/web/editor.js:140-146 | cells are neighbours exactly when they share an edge: left, right, above or below |
| `Painting.SettingsAreChecked` | internal/app/web/editor.js:419-442 | colour, tool and palette are taken exactly when they are 0 to 15, one of the four names, or listed |
| `Painting.CursorIsKept` | internal/app/web/editor.js:444-456 | a cursor off the canvas is refused, a move is cut off at the edge |
| `Editor.EditorModel.constructor` | internal/app/web/editor.js:392-409 | a fresh editor shares no array with its options and has the state they describe |
| `Editor.EditorModel.PaintLine` | internal/app/web/editor.js:513-518 | sets exactly the cells of the interpolated line, in bounds |
| `Editor.EditorModel.Commit` | internal/app/web/editor.js:560-570 | pushes the snapshot iff it differs, drops the oldest beyond the limit, clears redo, and shares no array |
| `Editor.EditorModel.BeginStroke` | internal/app/web/editor.js:458-475 | picks, fills or opens a stroke with a private snapshot, as the value model says |
| `Editor.EditorModel.ContinueStroke` | internal/app/web/editor.js:477-484 | extends an open stroke and refuses without one |
| `Editor.EditorModel.EndStroke` | internal/app/web/editor.js:486-494 | commits the stroke's snapshot |
| `Editor.EditorModel.ApplyAt` | internal/app/web/editor.js:496-511 | applies the tool at one cell as one edit |
| `Editor.EditorModel.Clear` | internal/app/web/editor.js:520-524 | erases in place without touching any stored snapshot |
| `Editor.EditorModel.FlipHorizontal` | internal/app/web/editor.js:526-530 | replaces the array by its mirror image as one edit |
| `Editor.EditorModel.FlipVertical` | internal/app/web/editor.js:532-536 | the same for rows |
| `Editor.EditorModel.Undo` | internal/app/web/editor.js:538-547 | moves one snapshot back, keeping a private copy for redo and dropping an open stroke |
| `Editor.EditorModel.Redo` | internal/app/web/editor.js:549-558 | the mirror image of undo |
| `Editor.EditorModel.Draft` | internal/app/web/editor.js:572-585 | returns a draft that validation accepts unchanged, also during a stroke |
| `Editor.EditorModel.Replay` | internal/app/web/editor.js:391-586 | on every sequence of operations the array-based object agrees with the value model and keeps its arrays distinct |
| `Editor.MoveIsUnshared` | internal/app/web/editor.js:538-558 | moving arrays between stacks and copying never makes two owners of one array |
| `Drafts.DraftPassesValidation` | internal/app/web/editor.js:349-389 | every saved draft validates to itself |
| `Drafts.ReloadedDraftIsSame` | internal/app/web/editor.js:392-409 | an editor rebuilt from a draft drafts to the same value |
| `Drafts.DraftOfAnyRunRestores` | internal/app/web/editor.js:349-409 | a draft saved at any moment of any run restores that drawing |
| `Drafts.ValidationIsIdempotent` | internal/app/web/editor.js:349-389 | an accepted draft of version 1, 2 or 3 validates to a fixed point |
| `Drafts.DraftIsAcceptedIff` | internal/app/web/editor.js:349-389 | exactly which values of each draft version are accepted, field by field |
| `Drafts.AcceptedDraftKeeps` | internal/app/web/editor.js:361-388 | an accepted draft keeps drawing, alias, colour and tool, its parent from version 2 on and its palette from 3 on, else vga16 version 1 |
| `Drafts.DraftHolds` | internal/app/web/editor.js:572-585 | a saved draft holds the editor's state, with an unusable alias or parent left out |
| `Drafts.NewEditorIs` | internal/app/web/editor.js:392-409 | each constructor option is taken exactly when it makes sense, else colour 15, pencil, blank, vga16 version 1 and 64 undo steps |
| `PostcardStore.PositionOf` | internal/store/store.go:183-190 | finds the row with an id or none |
| `Submissions.InsertSucceedsIff` | internal/store/store.go:76-115 | a submission is accepted iff alias, palette, visible parent and difference from the latest visible postcard are all right; the first that is not decides the error |
| `Submissions.AcceptedIsStored` | internal/store/store.go:117-147 | it becomes one new visible row under the next id with the submitted values, an empty alias as none |
| `Submissions.GetPublicIff` | internal/store/store.go:179-195 | a postcard can be read iff its row is visible, with the row's values and its parent only while that is visible |
| `Submissions.ListingsRefuseIff` | internal/store/exploration.go:10-17 | listings refuse exactly a limit or cursor below 1 or a negative offset, and never exceed the limit |
| `Submissions.CharacterClasses` | internal/store/moderation.go:151-163 | which characters are trimmed as spaces and which are refused as controls |
| `Submissions.ReasonIsBareText` | internal/store/moderation.go:151-163 | of any text with spaces around it the reason is the text alone, refused iff empty, over 256 characters or holding a control character |
| `Submissions.ReasonSplits` | internal/store/moderation.go:151-163 | every reason is such a text |
| `Submissions.ModerationRefusal` | internal/store/moderation.go:96-133 | which error each refused moderation gets |
| `Submissions.ModerationDoes` | internal/store/moderation.go:112-148 | a successful one changes status, time and reason of one row and logs exactly that |
| `StoreInvariants.RunKeepsSound` | internal/store/moderation.go:87-149 | every run of publications and moderation, failures included, keeps ordered ids, older parents, content identity and a faithful log |
| `StoreInvariants.InsertKeepsSound` | internal/store/store.go:76-148 | insertion keeps that invariant, parent ids staying below child ids |
| `StoreInvariants.ModerationKeepsSound` | internal/store/moderation.go:112-148 | hide and restore keep it: the log alternates, and the row shows its last event |
| `StoreInvariants.FaithfulStep` | internal/store/moderation.go:112-139 | a hide extends an even log and a restore an odd one, and the row follows |
| `StoreInvariants.ModerationSucceedsIff` | internal/store/moderation.go:96-133 | an action succeeds iff the reason is acceptable, the row exists and its event count has the right parity |
| `StoreInvariants.RunExtends` | internal/store/operations.go:23-23 | later states keep every earlier row's content in place and add only larger ids |
| `Deduplication.DuplicateIff` | internal/store/store.go:104-115 | a submission is refused as duplicate iff it equals the visible row with the largest id |
| `Deduplication.RunKeepsDeduplicated` | internal/store/store.go:104-115 | on every run each row differs from the row that was latest when it was published |
| `Deduplication.EqualNeighboursNeedModeration` | internal/store/moderation.go:112-139 | equal visible neighbours have a moderation event after the younger's publication: the older restored or one between hidden |
| `Deduplication.PublishingAloneKeepsNeighboursDifferent` | internal/store/store.go:104-115 | without moderation neighbours always differ |
| `Deduplication.NeighboursStayDifferentIff` | internal/store/moderation.go:112-139 | while visible neighbours differ, a transaction keeps them different iff it is a publication, fails, hides a row whose two visible neighbours differ, or restores a row that differs from both it lands between |
| `Deduplication.NeighboursAlwaysDifferIff` | internal/store/moderation.go:79-85 | from an empty store neighbours differ throughout a run iff every moderation met that condition when it came |
| `Deduplication.PublishingKeepsDifferent` | internal/store/store.go:104-115 | a publication never makes equal neighbours, whatever was hidden before |
| `Neighbours.EmptyingKeepsDifferentIff` | internal/store/moderation.go:112-116 | emptying a place keeps neighbours different iff the two around it differ |
| `Neighbours.FillingKeepsDifferentIff` | internal/store/moderation.go:112-116 | filling a gap does iff what is put there differs from both around it |
| `Deduplication.HidingTheMiddleMakesEqualNeighbours` | internal/store/moderation.go:79-81 | a concrete run that makes equal neighbours by hiding |
| `Deduplication.RestoringMakesEqualNeighbours` | internal/store/moderation.go:83-85 | a concrete run that makes equal neighbours by restoring |
| `Queries.NewestDescends` | internal/store/exploration.go:24-24 | listings have strictly descending ids |
| `Queries.NewestHolds` | internal/store/exploration.go:18-25 | a listing holds exactly the visible rows that satisfy its condition |
| `Queries.NewestReversesOldest` | internal/store/weekly.go:34-39 | newest-first and oldest-first are each other's reversal |
| `Pagination.CursorIsRow` | internal/store/exploration.go:45-50 | a next cursor is the id of a row, below the previous cursor, and uses up at least `limit` rows |
| `Pagination.PageIds` | internal/store/exploration.go:10-52 | a page's ids descend, are visible, lie below the cursor and not below the next one |
| `Pagination.PageIsComplete` | internal/store/exploration.go:45-50 | every visible row below the cursor is on the page or below the next cursor |
| `Pagination.TraversalDescends` | internal/store/exploration.go:10-52 | with any transactions between pages, ids strictly descend over all pages and no later publication appears |
| `Pagination.TraversalIsComplete` | internal/store/exploration.go:10-52 | a finished traversal shows every row visible whenever a page was read |
| `Pagination.TraversalEnds` | internal/store/exploration.go:45-50 | the traversal ends within as many pages as the rows at its start allow |
| `Pagination.QuietTraversalIsList` | internal/store/exploration.go:10-52 | with nothing in between, the pages together are the full newest-first list |
| `Pagination.QuietTraversalIsOffsetList` | internal/store/store.go:152-177 | and equal the offset listing with room for everything |
| `Pagination.OffsetPagesAreList` | internal/store/store.go:152-177 | in a quiet store consecutive offset pages concatenate to the newest-first list |
| `Pagination.PublicationShiftsOffsets` | internal/store/store.go:152-177 | one publication moves every offset by one, so the next page repeats the last postcard of a full one |
| `Pagination.HidingShiftsOffsets` | internal/store/store.go:152-177 | hiding a postcard already passed moves every later offset the other way, and the visible postcard at the offset is on no page the reader sees |
| `StoreObject.Store.InsertWithPalette` | internal/store/store.go:76-148 | refuses with the table unchanged, or appends a row and returns what the public then reads under the new id |
| `StoreObject.Store.SetModeration` | internal/store/moderation.go:87-149 | changes row and log together and returns the record of the changed row, or changes neither |
| `StoreObject.Store.Perform` | internal/store/store.go:37-62 | every transaction on the object is one step of the value model |
| `StoreObject.Store.GetPublic` | internal/store/store.go:179-195 | reads the projected row by id while it is visible |
| `StoreObject.Store.ListBefore` | internal/store/exploration.go:10-52 | the limit+1 probe, the reslice and the cursor, as the page specification says |
| `StoreObject.Store.List` | internal/store/store.go:152-177 | offset listing |
| `StoreObject.Store.ListPublicBetween` | internal/store/weekly.go:11-63 | the reversed newest rows are the end of the list in id order |
| `StoreObject.ReverseInPlace` | internal/store/weekly.go:56-58 | the two-pointer swap loop reverses the slice in place |
| `StoreObject.Store.PublicStats` | internal/store/stats.go:28-108 | the counting map read back in catalog order gives each palette its number of visible rows |
| `StoreObject.CountUnderKey` | internal/store/stats.go:76-103 | under distinct printed keys the map lookup is the palette's count, 0 when absent |
| `Weekly.SelectionIsLatest` | internal/store/weekly.go:26-58 | the selection ascends, has min(limit, total) rows, all visible and in the text window, and omits only older ones |
| `Weekly.ReversedHeadIsTail` | internal/store/weekly.go:38-58 | reversing the newest `limit` rows keeps the end of the list in id order |
| `Weekly.SelectionWindowIsExactWhen` | internal/store/weekly.go:17-37 | the selected window is the true one iff the instant is not strictly inside a bound's first second |
| `Stats.PaletteCountsAddUp` | internal/store/stats.go:68-103 | the counts over the closed catalog sum to the total |
| `Stats.GroupsCount` | internal/store/stats.go:68-72 | grouping gives each palette the number of visible rows that use it |
| `Stats.RemixesAreShown` | internal/store/stats.go:56-66 | the remix count is the number of listed postcards that show a parent |
| `Stats.StatsAreConsistent` | internal/store/stats.go:41-103 | in every sound store sum, total, remixes and weekly count agree with the listings |
| `Stats.StatsCount` | internal/store/stats.go:28-108 | every number is the size of the set of rows it counts, per catalog entry in order; refused iff the window is empty or the week has no key |
| `Timestamps.TextBelowBound` | internal/store/weekly.go:17-30 | text order against a whole-second bound, in terms of the instant's second and fraction |
| `Timestamps.TextReads` | internal/store/store.go:123-123 | the stored text is YYYY-MM-DDTHH:MM:SS, the fraction and Z |
| `Timestamps.FractionReads` | internal/store/store.go:123-123 | the fraction is a dot and the nine digits of the nanoseconds without trailing zeros |
| `Timestamps.TextWindowIsExactWhen` | internal/store/weekly.go:26-37 | the text window is the true window iff the instant is not strictly inside the first second after a bound |
| `Timestamps.HalfASecondIntoTheWeekIsMissed` | internal/store/weekly.go:26-37 | a concrete instant of a week that its text window misses |
| `Timestamps.TextWindowsPartition` | internal/store/weekly.go:17-37 | among any number of consecutive text windows each stored text between the outer bounds is in exactly one |
| `Weeks.WeeksPartitionMoments` | internal/app/weekly.go:60-70 | for every day, time of day and day the page is asked for: the text window of that week counts the moment iff it is the moment's week, or the week before strictly inside Monday's first second |
| `Weeks.CountedOnce` | internal/app/weekly.go:60-70 | the week that counts a moment is one Monday-based week, its own or the one before |
| `Weeks.TrueWeek` | internal/app/weekly.go:63-69 | the bounds are in order, and the moments between them are those of the week's seven days |
| `Weeks.WeekKeyNamesWeek` | internal/app/weekly.go:62-67 | days have the same year-and-week key iff they are days of the same week |
| `Weeks.WeekNumbersCount` | internal/app/weekly.go:62-67 | week 1 has the year's first Thursday, and weeks count on by one |
| `Weeks.DayNumberOfDate` | internal/app/weekly.go:60-70 | counting day by day from 1970 agrees with the Gregorian closed form |
| `Weeks.DateOfDayNumber` | internal/app/weekly.go:60-70 | every Gregorian date is the date of its day number |
| `Migrations.ResumingChangesNothing` | internal/store/operations.go:109-149 | stopping after any number of committed steps and reopening ends like an uninterrupted run |
| `Migrations.AnyInterruptionsChangeNothing` | internal/store/operations.go:109-149 | so does any number of interruptions |
| `Migrations.MigrationSucceedsIff` | internal/store/operations.go:101-149 | opening succeeds iff the version is 0 to 4 and unhashed pixels decode; a newer version is untouched, bad pixels stop at version 2 |
| `Migrations.MigrationKeepsPostcards` | internal/store/operations.go:31-99 | ids, pixels, alias, commit and time survive every step, and so do columns that already exist |
| `Migrations.NewColumnsAre` | internal/store/operations.go:31-99 | what rows get for columns they lack: visible and unmoderated, the hash under vga16 version 1, no parent, palette vga16 version 1 |
| `Migrations.MigratedStoreIsSound` | internal/store/operations.go:101-191 | a migrated file is a sound store, every hash equal to the hash of its pixels and palette, and later runs keep that |
| `Database.Database.Migrate` | internal/store/operations.go:101-149 | the loop over schema versions reaches what the specification says, stopped after any number of commits |
| `Database.Database.Staged` | internal/store/operations.go:110-138 | one schema step inside its transaction, failing without effect on bad pixels |
| `Database.PopulateContentIdentity` | internal/store/operations.go:151-191 | decodes all rows first and then hashes each by id, or refuses iff some row does not decode |
| `RateLimiter.Limiter.constructor` | internal/ratelimit/limiter.go:23-43 | bad settings are replaced and the table starts empty |
| `RateLimiter.Limiter.Allow` | internal/ratelimit/limiter.go:45-68 | one call is one step of the relation, recorded in the run |
| `RateLimiter.Limiter.RemoveExpired` | internal/ratelimit/limiter.go:76-82 | deletes exactly the expired entries, in whatever order the table is walked |
| `RateLimiter.Limiter.RemoveOldest` | internal/ratelimit/limiter.go:84-98 | deletes one entry seen least recently |
| `RateLimiterRuns.TableStaysBounded` | internal/ratelimit/limiter.go:45-98 | at every moment the table, the counts and the times seen are within bounds |
| `RateLimiterRuns.CountIsGrants` | internal/ratelimit/limiter.go:52-67 | an entry counts exactly the calls granted to its key since the one that opened the window |
| `RateLimiterRuns.RefusalNeedsFullWindow` | internal/ratelimit/limiter.go:52-60 | a call is refused only after its key was granted the whole limit within the last window |
| `RateLimiterRuns.BelowLimitIsGranted` | internal/ratelimit/limiter.go:52-67 | a key granted fewer than the limit in every younger stretch is served |
| `RateLimiterRuns.OpenWindowRefusesIff` | internal/ratelimit/limiter.go:52-60 | a key with an open window is refused iff that window has granted the limit |
| `RateLimiterRuns.AtMostTwiceTheLimit` | internal/ratelimit/limiter.go:45-68 | a key that stays in the table is granted at most 2*limit calls in any window-long stretch |
| `RateLimiterCrowds.BoundHoldsIff` | internal/ratelimit/limiter.go:45-98 | callers with a given set of keys are kept to twice the limit per window-long stretch, each key on every run, iff the table has room for all the keys |
| `RateLimiterCrowds.EvictionLiftsTheBound` | internal/ratelimit/limiter.go:63-67 | for every table size, one key more than there is room for, calling in turn, can be granted any number of rounds at one instant, or a tick apart within a window |
| `RateLimiterCrowds.NoChoiceSavesTheBound` | internal/ratelimit/limiter.go:63-98 | when those turns come a tick apart within one window, every run grants them all, however the map is walked |
| `RateLimiterRuns.EarlyWindowNeedsCrowd` | internal/ratelimit/limiter.go:63-98 | a window opens early only after at least `maxEntries` other keys called since the key was last seen |
| `RateLimiterRuns.RefinesUnbounded` | internal/ratelimit/limiter.go:45-82 | while no eviction is needed the table is the unbounded limiter's restricted to open windows |
| `RateLimiterRuns.FewKeysAgreeWithUnbounded` | internal/ratelimit/limiter.go:45-82 | runs over at most `maxEntries` keys decide every call as the unbounded limiter does |
| `ContentIdentity.PreimageIsInjective` | internal/core/content.go:11-26 | equal hash inputs mean equal pixels, palette id and version, for all ids (in UTF-8) and versions, legacy prefix included |
| `ContentIdentity.DefaultPreimage` | internal/core/content.go:11-25 | the default palette keeps the literal prefix without a version |
| `ContentIdentity.VersionedPreimage` | internal/core/content.go:20-24 | every other identity is named with its version |
| `ContentIdentity.SuffixIsInjective` | internal/core/content.go:22-22 | the printed palette id and version can be read back from the prefix |
| `Rendering.RenderPostcard` | internal/app/share.go:127-143 | every image point shows its pixel's colour; an unlisted palette is refused |
| `Rendering.RenderMosaic` | internal/app/weekly.go:171-195 | every point shows the postcard of its tile or background; refused iff one of the first 64 palettes is unlisted |
| `Rendering.RenderWeekly` | internal/app/weekly.go:171-195 | the same for the shipped catalog, on black |
| `Rendering.PaintTile` | internal/app/weekly.go:182-193 | paints one tile's points and no others |
| `Rendering.MosaicBlock` | internal/app/weekly.go:182-188 | a point lies in the block of tile t and pixel k iff those are its tile and pixel, so tiles never overlap |
| `Rendering.PaletteColors` | internal/app/share.go:30-40 | looks every index up anew and succeeds iff the catalog has the palette, with colour i at entry i for all sixteen |
| `Rendering.SamplingRecoversPostcard` | internal/app/share.go:132-143 | one point per 16x16 block recovers the pixel under distinct colours |
| `Rendering.SamplingRecoversTile` | internal/app/weekly.go:182-193 | one point per 4x4 block recovers the pixel of the tile's postcard |
| `Rendering.RenderedPostcardReadsBack` | internal/app/share.go:132-143 | reading one point per block of the painted buffer gives back the 256 pixels |
| `Rendering.RenderedMosaicReadsBack` | internal/app/weekly.go:174-193 | one point per block, at coordinates given by tile and pixel number, gives back every pixel of each of the first 64 postcards, and background past the last |
| `Rendering.ImageDeterminesPixels` | internal/app/share.go:127-143 | two image buffers alike in every point, each showing a postcard in one catalog palette, show the same pixels |
| `Palettes.PaletteFrom` | internal/core/palette.go:75-82 | finds an entry with the identity iff there is one |
| `Palettes.PalettesAreInjective` | internal/core/palettes.json:3-41 | every catalog palette has sixteen different colours |
| `Palettes.SupportedPalettes` | internal/store/operations.go:82-86 | the catalog is the closed list the schema's triggers enforce |
| `Binary.CatalogIsWellFormed` | internal/core/palette.go:35-63 | the embedded catalog has its default, unique keys, ids, versions from 1 on and sixteen 24-bit colours per palette |
| `Binary.EqualHashMeansEqualContentOrCollision` | internal/store/store.go:117-125 | in every reachable store equal hashes mean equal content or a hash collision |
| `Binary.DefaultPostcardsKeepTheirHash` | internal/store/store.go:117-125 | in every reachable store a vga16 version 1 row is hashed from the literal legacy prefix and its pixels |
| `Binary.MigratedPostcardsKeepTheirHash` | internal/store/operations.go:151-191 | so is every such row of a migrated store and of any run after it |
| `Binary.PublishedPostcardIsInItsWeek` | internal/store/store.go:117-125 | a postcard published at an instant is selected for that instant's window, except in a bound's first second |
| `Binary.PublishedPostcardIsInOneWeek` | internal/store/weekly.go:26-37 | a published postcard is selected on the page of exactly the week that counts its moment |

## Left out

- HTTP routing, headers, JSON encoding, page templates and the page's event wiring: plumbing around the modelled code.
- SQLite itself: tables are sequences in id order, AUTOINCREMENT a counter that never goes back, a transaction one atomic step; the text checks on stored hashes and the row triggers beyond the palette list are not modelled.
- SHA-256 and the PNG encoder: the hash is an arbitrary function of its input and rendering stops at the pixel buffer.
- Reading a stored time back into an instant: rows keep the text, and instants have calendar fields within the years 0 to 9999.
- Editor.EditorModel.constructor: arrays with holes are not among the option values; `every` skips holes, so the original accepts an array of 256 holes as pixels.
- Drafts.ValidPixels: the same holds for pixels of a saved draft, which JSON cannot give holes.
- Creation times along ids: the clock is read before the transaction, so later ids may have earlier times; listings are in id order and nothing is said about their times.
- Binary.CatalogIsWellFormed: palette display names and the `#RRGGBB` notation are not modelled; colours are numbers.
- Integer widths: ids, counters, counts and times are unbounded integers.
- Non-integer coordinates, colour values and versions passed directly to editor methods: those parameters are integers here; saved drafts and constructor options are arbitrary values.
- Backup, command line, configuration, client address handling, the daily challenge and random selection: I/O or short checks.
- Moderation listings by status: a plain filter over the modelled rows.
- UTF-8 validity of moderation reasons: strings are sequences of characters.
