# PDFSignViewer annotation engine in Dafny

This project models the annotation engine of the `PDFSignViewer` web component in `pdf-sign-sdk.js`. The component shows a PDF and lets a user place signature positions on its pages. There are three kinds of position:

- a point, placed by a click;
- a rectangle, placed by a drag gesture;
- a handwriting image, drawn in a modal.

The user can move, remove and undo positions, store them in `localStorage`, and bake them into the PDF as red squares.

The whole component is one immutable `Viewer.Session` value. Every public method and every pointer or button handler is a pure function from session to session. The session holds:

- the annotation store: the list `_positions`, the undo stack and the id counter `_nextId`;
- the page overlays, as a map from page number to the ids of the markers it shows;
- the viewport registry;
- the add-mode controller, with the set of attached listeners;
- the pages whose overlay carries the `capture` class;
- the open label editor and handwriting modals;
- the persistence slot;
- the log of dispatched events.

Modules, one per part of the component:

| module | part |
|---|---|
| `Wrappers` | `Option` and the positive-real type `PosReal` |
| `Records` | annotation records, with JavaScript's three property states (missing / `null` / value) |
| `Geometry` | pixel↔percent conversion, `toFixed(3)`, rectangle gestures, drag, zoom and page clamps |
| `Labels` | the trimmed label of the inline editor |
| `Store` | `_positions`, `_undoStack`, `_nextId` and the identifier invariant |
| `Overlay` | page overlays and their consistency with the list |
| `Persistence` | storage key, the saved snapshot, and replay of a parsed JSON array |
| `Export` | the `exportAnnotatedPdf` loop, as a list of `drawRectangle` calls |
| `Controller` | the `enableAddMode` state machine with its set of attached listeners |
| `Viewer` | the session and every operation on it |
| `ViewerInvariants` | every operation keeps the session invariant, including over any sequence of operations |
| `ViewerProperties` | what each operation promises its caller, and scenarios that combine several operations |

Numbers are exact reals. `toFixed(3)` is modelled concretely: round |v| half-up to a multiple of 0.001, then restore the sign.

## Behaviour worth knowing

The model follows the code in each case below.

- **Switching add modes keeps old listeners.** Only a falsy mode detaches listeners. A truthy mode only adds its own. After `enableAddMode('click')` and then `enableAddMode('rect')`, the click handler is still live, and `_onClick` checks only that the mode is truthy. So the click the browser fires at the end of a rectangle gesture replaces the rectangle's label editor with a point editor. See `Controller.ClickThenRectKeepsClickHandler` and `ViewerProperties.ClickThenRectOpensPointEditor`.
- **`clearPositions` neither saves nor dispatches an event.** Cleared records come back the next time persistence is enabled (`ViewerProperties.ClearedRecordsComeBack`).
- **`addPosition` always creates rectangles.** It defaults `widthPercent` and `heightPercent` to `null`. `_renderMarker` tests `!== undefined`, so every record `addPosition` creates is drawn as a rectangle, and none can be dragged. That includes plain clicks confirmed in the label editor. Only records that lack those properties reach the image or point branches: handwriting saves, and replayed objects stored without them.
- **Export draws the same square for every variant.** It draws one square with side 2% of the larger page dimension, centred on the anchor. Rectangle sizes and images are not drawn.
- **Export aborts on an out-of-range page.** `pdfDoc.getPage(page - 1)` runs before the viewport check. A record whose page lies outside the document therefore rejects the whole export. Only a record whose page is in range but has no viewport is skipped.
- **Replay stops at the first non-object element.** The assignment `p.id = ...` throws on a non-object element, because class bodies are strict-mode code. The replay stops there and `positions-restored` is not dispatched. `this._nextId++` on the right of the assignment is evaluated before the assignment throws, so the stopping element still uses up one id.
- **Each early `enablePersistence(true)` queues a replay.** Each call made before a document is loaded registers its own `loaded` listener, so two such calls replay the stored list twice.
- **Overlays take pointer events only with the `capture` class.** An overlay ignores the pointer unless it has the `capture` class (lines 52-53). Its markers set no `pointer-events` of their own (line 62), so they inherit this. `enableAddMode` with a truthy mode adds the class to the overlays that exist at the time, and a falsy mode removes it. With add mode off, markers therefore cannot be dragged.
- **A re-render leaves add mode inert.** `_renderAllPages` empties the viewer and builds new overlays without `capture` (lines 371 and 400-401). It runs on every zoom and load. Until `enableAddMode` is called again, clicks, rectangle gestures, draw presses and marker drags on the new pages reach no handler, even though the mode and its listeners are unchanged. Emptying the viewer also discards an open label editor (`ViewerProperties.ZoomLeavesGesturesInert`).
- **Clicks are not clamped.** Click and handwriting coordinates can leave [0, 100]. Only dragging clamps.
- **Stale viewports are kept.** Viewport entries are added per page and never removed.
- **`src="inline"` collides with an inline document.** A document whose `src` is literally `inline` shares its storage slot with an inline document (`Persistence.InlineSourcesShareKey`).

## Model

| member | source | states |
|---|---|---|
| Records.OrNull | pdf-sign-sdk.js:732 | a destructuring default `= null` applies only to a missing property: a missing property becomes `null`, a present one (even `null`) is kept, and the result is always present |
| Geometry.Clamp | pdf-sign-sdk.js:911-912 | the clamp lands in [0, 100]: a value in range is kept, a negative value becomes 0, and a value above 100 becomes 100 |
| Geometry.Round3 | pdf-sign-sdk.js:691 | `+v.toFixed(3)` is within 1/2000 of `v`, keeps its sign, and keeps [0, 100] values inside [0, 100] |
| Geometry.Round3Monotone | pdf-sign-sdk.js:691 | rounding never swaps the order of two coordinates |
| Geometry.Round3Idempotent | pdf-sign-sdk.js:691 | rounding an already rounded value changes nothing |
| Geometry.PixelPercentRoundTrip | pdf-sign-sdk.js:688-689 | converting pixel offsets to percentages and back is the identity, in both directions |
| Geometry.PixelToPercentInRange | pdf-sign-sdk.js:688-689 | an offset lies inside the overlay box if and only if its percentage lies in [0, 100] |
| Geometry.ClickPoint | pdf-sign-sdk.js:684-691 | the click position is within rounding error of the exact percentages, and a click inside the overlay gives coordinates in [0, 100] |
| Geometry.DrawPoint | pdf-sign-sdk.js:578-582 | the handwriting anchor, drawn back at its percentage, is exactly the pixel that was pressed |
| Geometry.RectGesture | pdf-sign-sdk.js:523-557 | a gesture narrower or shorter than 10 px gives nothing, and only such a gesture does; otherwise the rectangle is anchored at the minimum corner, its size is the absolute pointer distance in percent (non-negative), all within rounding error |
| Geometry.RectGestureSpansPointers | pdf-sign-sdk.js:537-544 | before rounding, the rectangle spans exactly from the smaller to the larger pointer position, whichever corner the gesture started from |
| Geometry.DragTargetShift | pdf-sign-sdk.js:909-910 | a pointer delta of d pixels moves a marker by d / size · 100 percent |
| Geometry.DragRelease | pdf-sign-sdk.js:905-921 | the committed position is the clamp of the start position shifted by the last pointer delta, so it lies in [0, 100]; with no move it is the position shown before |
| Geometry.ZoomClamp | pdf-sign-sdk.js:974 | the scale lands in [0.25, 5], is kept exactly when already in range, and is pulled to the nearer bound otherwise |
| Geometry.ZoomClampStable | pdf-sign-sdk.js:974 | zoom clamping is idempotent and monotone |
| Geometry.PageClamp | pdf-sign-sdk.js:993 | the target page is at least 1 and at most the page count when one is known; a page in range is kept, a request below 1 goes to 1, and one above the count goes to the last page |
| Labels.Trim | pdf-sign-sdk.js:719 | the trimmed label is the slice of the input between its leading and trailing ECMAScript whitespace runs, with no whitespace at either end |
| Labels.LabelOf | pdf-sign-sdk.js:719 | the label is `null` exactly for an empty field, and for any other entry it is the trimmed text |
| Labels.BlankInputGivesEmptyLabel | pdf-sign-sdk.js:719 | a whitespace-only entry gives the empty label rather than `null` |
| Store.EmptyValid | pdf-sign-sdk.js:122-139 | a new component satisfies the identifier invariant |
| Store.Append | pdf-sign-sdk.js:734-735 | appending keeps earlier records in place, stores the record under the old counter and advances the counter by one |
| Store.AppendPreservesValid | pdf-sign-sdk.js:734-735 | appending under the counter keeps identifiers distinct and below the counter |
| Store.Add | pdf-sign-sdk.js:732-740 | a non-number coordinate is rejected, and only then; otherwise exactly one record is appended under the old counter with the given coordinates, page 1 when none is given, and each missing label, width, height or image set to `null` while present ones are kept; the undo stack is untouched |
| Store.AddedRecordIsRect | pdf-sign-sdk.js:732-753 | every record `addPosition` creates is drawn as a rectangle and cannot be dragged |
| Store.AddPreservesValid | pdf-sign-sdk.js:732-735 | `addPosition` keeps the identifier invariant |
| Store.IndexOf | pdf-sign-sdk.js:872-873 | `findIndex` gives -1 exactly when no record has the id, and otherwise the first index that has it |
| Store.RemoveAt | pdf-sign-sdk.js:874 | the splice removes exactly one occurrence of the element: the multiset shrinks by that record |
| Store.Remove | pdf-sign-sdk.js:871-885 | an unknown id changes nothing; otherwise the record spliced out is the first one with the id, the rest keep their order, and it goes on top of the undo stack |
| Store.RemoveAtKeepsDistinct | pdf-sign-sdk.js:874 | after the splice the remaining ids are distinct, and none equals the removed id |
| Store.RemovePreservesValid | pdf-sign-sdk.js:871-885 | `removePosition` keeps the identifier invariant |
| Store.Undo | pdf-sign-sdk.js:887-895 | an empty stack changes nothing; otherwise the most recently removed record is popped and re-appended unchanged |
| Store.UndoPreservesValid | pdf-sign-sdk.js:887-890 | `undoLast` keeps the identifier invariant |
| Store.RemoveThenUndo | pdf-sign-sdk.js:871-895 | remove followed by undo gives back an equal record with its id at the end of the list, the undo stack as before, and the same multiset of records |
| Store.Clear | pdf-sign-sdk.js:929-931 | clearing empties list and undo stack, keeps the counter, and leaves a valid store |
| Store.ClearThenUndo | pdf-sign-sdk.js:929-931 | after a clear, `undoLast` returns nothing and changes nothing |
| Overlay.RenderMarker | pdf-sign-sdk.js:744-748 | a marker is appended to its own page's overlay only; a page without a container is skipped and nothing changes |
| Overlay.FreshPages | pdf-sign-sdk.js:371-372 | re-rendering creates an empty overlay for exactly the pages 1..numPages |
| Overlay.RemoveMarker | pdf-sign-sdk.js:876-879 | removing a marker keeps every page container |
| Overlay.ClearMarkers | pdf-sign-sdk.js:932 | clearing empties every overlay and keeps every container |
| Overlay.RenderMarkerKeepsConsistent | pdf-sign-sdk.js:744-748 | drawing the appended record keeps the overlays consistent with the longer list |
| Overlay.RenderEachKeepsConsistent | pdf-sign-sdk.js:416 | drawing records one after another keeps the overlays consistent with the list extended by them |
| Overlay.RenderAllConsistent | pdf-sign-sdk.js:370-416 | re-rendering all pages shows each page exactly its records' markers in list order, whatever the overlays held before |
| Overlay.RemoveFirstOnPage | pdf-sign-sdk.js:876-879 | on each page, removing the first marker with the id lists exactly the markers of the spliced list |
| Overlay.RemoveFirstAround | pdf-sign-sdk.js:876-879 | when no other record carries the id, removing the first marker with it lists exactly the markers of the list without that record |
| Overlay.RemoveMarkerKeepsConsistent | pdf-sign-sdk.js:871-879 | removing a record and its markers keeps the overlays consistent |
| Overlay.ClearMarkersConsistent | pdf-sign-sdk.js:929-932 | emptied overlays are consistent with the empty list |
| Overlay.IdsOnPageSameShape | pdf-sign-sdk.js:919 | moving a record keeps its id and page, so the overlays stay consistent |
| Overlay.ConsistentShowsEachOnce | pdf-sign-sdk.js:743-868 | a consistent overlay shows each record whose page has a container exactly once, and nothing that is not a record of that page |
| Persistence.SourceName | pdf-sign-sdk.js:151 | a missing or empty `src` names the inline document, and any other `src` names itself; the name is never empty |
| Persistence.StorageKey | pdf-sign-sdk.js:150-153 | the key is the prefix `pdfsign:` followed by the encoded source name |
| Persistence.DistinctSourcesDistinctKeys | pdf-sign-sdk.js:150-153 | with an injective encoding, different source names get different keys |
| Persistence.InlineSourcesShareKey | pdf-sign-sdk.js:151 | no `src`, an empty `src` and `src="inline"` share one key |
| Persistence.Snapshot | pdf-sign-sdk.js:158-159 | the saved array holds one object per record, in list order |
| Persistence.LeadingObjects | pdf-sign-sdk.js:174-178 | the replay handles exactly the objects before the first non-object element |
| Persistence.Reissue | pdf-sign-sdk.js:175-177 | replayed records keep their fields and are numbered nextId, nextId + 1, … in array order, whatever ids they were stored with |
| Persistence.SnapshotReadsBack | pdf-sign-sdk.js:158-177 | a saved list reads back as an all-object array of the same records, renumbered |
| Export.ToPdfPointInverse | pdf-sign-sdk.js:951-954 | the flip is undone by (1 - y/H) · 100 and the horizontal scale by x/W · 100 |
| Export.ToPdfPointOnPage | pdf-sign-sdk.js:951-954 | a percentage in [0, 100] lands on the page and only such a percentage does; the top edge maps to y = H |
| Export.MarkerFor | pdf-sign-sdk.js:951-957 | the square is on zero-based page `page - 1`, has side 2% of the larger page dimension, and is centred on the flipped anchor |
| Export.ExportMarkers | pdf-sign-sdk.js:945-958 | the export fails exactly when some record's page lies outside the document, naming the first such page; otherwise it draws the planned squares in list order |
| Export.PlannedCoversAll | pdf-sign-sdk.js:945-958 | when every page has a viewport, the k-th square belongs to the k-th record |
| Export.PlannedSkipsOnlyMissing | pdf-sign-sdk.js:948-949 | a record whose page has a viewport gets its square, and every square drawn belongs to such a record |
| Controller.EnableAddMode | pdf-sign-sdk.js:421-451 | a falsy mode detaches every listener; a truthy mode adds its own listeners and detaches none |
| Controller.EnableAddModeKeepsQuiet | pdf-sign-sdk.js:443-448 | with add mode off, no listener is attached |
| Controller.ClickThenRectKeepsClickHandler | pdf-sign-sdk.js:424-434 | after click mode then rectangle mode, both the click handler and the rectangle handler act |
| Controller.EnableAllListeners | pdf-sign-sdk.js:421-451 | after any sequence of calls on a new component, a handler is attached exactly when some call attached it and no falsy call came after that call |
| Viewer.New | pdf-sign-sdk.js:116-141 | a new component has an empty store with counter 1, no overlays, no captured overlay, no document, persistence off and no listener |
| Viewer.Save | pdf-sign-sdk.js:155-162 | with persistence on, the slot receives the whole current list; with it off nothing changes; only the storage is touched |
| Viewer.RecordViewports | pdf-sign-sdk.js:378 | pages 1..n get their native sizes, other entries are kept, and nothing else is added |
| Viewer.GoToPage | pdf-sign-sdk.js:992-996 | the page scrolled to has a container and lies in 1..numPages; it is the requested page when that is in range, page 1 for a request below 1, and the last page for a request beyond it |
| Viewer.MoveAt | pdf-sign-sdk.js:919 | the drag rewrites the two coordinates of one record in place and nothing else |
| Viewer.ExportAnnotated | pdf-sign-sdk.js:939-958 | the export needs a loaded document, fails exactly when a stored page is outside it, and otherwise draws the planned squares |
| ViewerInvariants.NewInv | pdf-sign-sdk.js:116-141 | a new component satisfies the session invariant |
| ViewerInvariants.AddPositionInv | pdf-sign-sdk.js:732-740 | `addPosition` keeps the session invariant |
| ViewerInvariants.RemovePositionInv | pdf-sign-sdk.js:871-885 | `removePosition` keeps the session invariant |
| ViewerInvariants.UndoLastInv | pdf-sign-sdk.js:887-895 | `undoLast` keeps the session invariant |
| ViewerInvariants.ClearPositionsInv | pdf-sign-sdk.js:929-933 | `clearPositions` keeps the session invariant |
| ViewerInvariants.RestoreOneInv | pdf-sign-sdk.js:175-178 | replaying one element keeps the session invariant |
| ViewerInvariants.RestoreEachInv | pdf-sign-sdk.js:174-179 | replaying an array keeps the session invariant |
| ViewerInvariants.RestoreInv | pdf-sign-sdk.js:173-181 | the restore closure keeps the session invariant |
| ViewerInvariants.RunPendingInv | pdf-sign-sdk.js:182-187 | running the queued replays keeps the session invariant |
| ViewerInvariants.EnablePersistenceInv | pdf-sign-sdk.js:144-148 | `enablePersistence` keeps the session invariant |
| ViewerInvariants.RenderAllPagesInv | pdf-sign-sdk.js:370-419 | re-rendering all pages keeps the session invariant |
| ViewerInvariants.LoadDocumentInv | pdf-sign-sdk.js:347-367 | loading a document keeps the session invariant |
| ViewerInvariants.ZoomToInv | pdf-sign-sdk.js:973-978 | `zoomTo` keeps the session invariant |
| ViewerInvariants.SaveHandwriteInv | pdf-sign-sdk.js:654-672 | saving a handwriting modal keeps the session invariant |
| ViewerInvariants.MoveAtInv | pdf-sign-sdk.js:919 | moving a record keeps the session invariant |
| ViewerInvariants.DragMarkerInv | pdf-sign-sdk.js:897-927 | a marker drag keeps the session invariant |
| ViewerInvariants.EnableAddModeInv | pdf-sign-sdk.js:421-451 | `enableAddMode` keeps the session invariant |
| ViewerInvariants.ConfirmLabelInv | pdf-sign-sdk.js:718-727 | the label editor's Add button keeps the session invariant |
| ViewerInvariants.DrawPositionInv | pdf-sign-sdk.js:564-591 | choosing a handwriting spot keeps the session invariant |
| ViewerInvariants.StoreStepInv | pdf-sign-sdk.js:732-933 | the store API keeps the session invariant |
| ViewerInvariants.DocumentStepInv | pdf-sign-sdk.js:144-981 | enabling persistence, loading and zooming keep the session invariant |
| ViewerInvariants.PointerStepInv | pdf-sign-sdk.js:421-927 | add-mode changes, clicks, rectangle gestures, handwriting spots and marker drags keep the session invariant |
| ViewerInvariants.EditorStepInv | pdf-sign-sdk.js:654-727 | the label editor's and the handwriting modal's buttons keep the session invariant |
| ViewerInvariants.StepInv | pdf-sign-sdk.js:421-995 | every public method and handler keeps the session invariant |
| ViewerInvariants.RunInv | pdf-sign-sdk.js:116-995 | from a new component, any sequence of operations keeps ids distinct and below the counter, and every overlay shows each record of its page exactly once |
| ViewerProperties.AddPositionContract | pdf-sign-sdk.js:732-740 | `addPosition` throws, and changes nothing, exactly for a non-number coordinate; otherwise one rectangle record with the given fields (missing ones `null`) is appended under the old counter, drawn on its page, announced, and saved |
| ViewerProperties.RemovePositionContract | pdf-sign-sdk.js:871-885 | an unknown id returns nothing and changes nothing; otherwise exactly the first record with the id leaves the list as `getPositions` returns it, the others keep their order, it goes on the undo stack, is announced, no overlay shows it, and with persistence on the slot holds the shorter list |
| ViewerProperties.UndoLastContract | pdf-sign-sdk.js:887-895 | an empty stack returns nothing and changes nothing; otherwise the last removed record is re-appended, announced and drawn again, and with persistence on the slot holds the longer list |
| ViewerProperties.RemoveThenUndoRestores | pdf-sign-sdk.js:871-895 | remove then undo restores an equal record with its id, the same multiset of records and the undo stack, and its page shows it exactly once |
| ViewerProperties.ClearThenUndo | pdf-sign-sdk.js:929-933 | a clear empties the list, the undo stack and every overlay, keeps the counter and containers, writes no storage and dispatches no event; a following undo returns nothing |
| ViewerProperties.LoadFromStorageIgnores | pdf-sign-sdk.js:164-170 | disabled persistence, a missing or empty value, unparseable text and a non-array value all leave the session unchanged |
| ViewerProperties.RestoreOneAppends | pdf-sign-sdk.js:175-177 | one replayed element is appended under the counter without touching the undo stack, storage or events |
| ViewerProperties.RestoreEachAppends | pdf-sign-sdk.js:174-179 | the replay appends the leading objects in array order with fresh ids, keeping the undo stack, storage and events |
| ViewerProperties.RestoreEachCounter | pdf-sign-sdk.js:174-177 | the counter advances by one per leading object, and by one more when a non-object element ends the replay |
| ViewerProperties.RestoreEachConsAppends | pdf-sign-sdk.js:175-177 | an object at the head of the array is appended under the counter, and the rest follow numbered from the next id |
| ViewerProperties.RestoreAppendsReissued | pdf-sign-sdk.js:164-181 | the replay appends renumbered records and saves nothing; the counter advances by the number of objects replayed, plus one when a non-object element stopped the replay; `positions-restored` with the array length is dispatched only when every element was an object |
| ViewerProperties.PersistenceRoundTrip | pdf-sign-sdk.js:144-187 | saving and reopening the document brings back the same records in the same order, renumbered from 1, whether persistence is enabled before or after loading |
| ViewerProperties.ClearedRecordsComeBack | pdf-sign-sdk.js:929-933 | because a clear does not save, re-enabling persistence replays every cleared record |
| ViewerProperties.SaveHandwriteContract | pdf-sign-sdk.js:654-672 | saving a handwriting modal appends one image record at the modal's spot under the next id, draws it on that page when the page has a container, announces it, and with persistence on saves the new list; it is an image marker exactly when the image is non-empty, and then cannot be dragged |
| ViewerProperties.ConfirmLabelStoresRect | pdf-sign-sdk.js:718-727 | the editor's Add button stores a rectangle-classified record at the draft's position with the trimmed label, the draft's size or `null` where the draft has none, and no image, and closes the editor |
| ViewerProperties.ClickThenRectOpensPointEditor | pdf-sign-sdk.js:424-434 | after click mode then rectangle mode on a rendered page, the click ending a rectangle gesture replaces the rectangle editor with a point editor |
| ViewerProperties.DrawPositionDetachesAll | pdf-sign-sdk.js:564-591 | choosing a handwriting spot turns add mode off, detaches every listener, removes `capture` from every overlay and opens a modal for that spot |
| ViewerProperties.DragMarkerContract | pdf-sign-sdk.js:897-927 | only a point marker whose overlay has the `capture` class can be dragged; such a drag with at least one move commits the clamp of the start shifted by the last pointer delta as a percentage of the overlay, on each axis; only those two fields of that record change, the move is announced, and with persistence on the list is saved even with no move; any other drag changes nothing |
| ViewerProperties.ZoomToContract | pdf-sign-sdk.js:973-978 | the stored scale lies in [0.25, 5] and the store is untouched; with a document, the overlays are re-projected from the list, none has `capture`, and the label editor is gone |
| ViewerProperties.ZoomLeavesGesturesInert | pdf-sign-sdk.js:370-410 | after a zoom with a document loaded, the mode and listeners are unchanged, but a click, rectangle gesture, draw press or marker drag changes nothing |
| ViewerProperties.ReenableRestoresCapture | pdf-sign-sdk.js:424-437 | entering a truthy mode after the zoom gives every rendered page's overlay the `capture` class again |
| ViewerProperties.ZoomStepsContract | pdf-sign-sdk.js:980-981 | `zoomIn` and `zoomOut` (via `CurrentScale`) step the current scale, 1 when none is set, by 0.25 and clamp it, so a step past a bound stays at the bound; the store is untouched |
| ViewerProperties.ZoomToScale | pdf-sign-sdk.js:973-974 | `zoomTo` stores the clamped scale whether or not a document is loaded, and leaves the store alone |
| ViewerProperties.ZoomInThenOut | pdf-sign-sdk.js:980-981 | inside [0.25, 4.75], zooming in and then out returns to the same scale |
| ViewerProperties.CancelLabelContract | pdf-sign-sdk.js:716-728 | the label editor's Cancel button closes it and stores, draws, saves and announces nothing; Add on the closed editor does nothing |
| ViewerProperties.CancelHandwriteContract | pdf-sign-sdk.js:648-651 | a handwriting modal's Cancel button removes that modal only and stores, draws, saves and announces nothing |
| ViewerProperties.LetterPageExample | pdf-sign-sdk.js:951-954 | a position at 34% / 34% of a 612 × 792 pt page is exported at (208.08, 522.72) pt |

## Left out

- DOM and CSS chrome: templates, toolbar, zoom bar, themes, custom CSS, thumbnails, `findText`, print and preview, and the mouse-move preview cross. These are user-interface code or foreign-library calls.
- Script loading with CDN fallback, `fetch`, pdf.js rendering and canvas sizing. The model takes a loaded document as its list of native page sizes.
- pdf-lib `PDFDocument.load`, `save` and the Blob download. `drawRectangle` becomes an element of a list of drawing operations, and `getPage` is modelled only by its range check.
- `localStorage`, `JSON.parse` and `JSON.stringify`. A stored value is the outcome of parsing it. A quota error on write is not modelled.
- `encodeURIComponent` is a function parameter.
- `CustomEvent` dispatch is an event log.
- The handwriting canvas and `toDataURL`: the image is an opaque string.
- Asynchronous interleaving. `load`, `zoomTo` and the export run to completion before the next operation.
- A change of the `src` attribute. The storage key is fixed per session.
- `exportPositions`: it only serialises the list.
- `fitToWidth`: it reads the element's layout width.
- `getPositions` returns a shallow copy, so callers can mutate the stored records through it. The model's list cannot be aliased.
- Floating point, `NaN` and `Infinity`. Reals are exact, and overlay and page sizes are positive by type, so a zero-size overlay is not modelled.
- Non-number and non-integer page values in replayed or added records. A page is an integer.
- The drag reads the marker's `style.left` back with `parseFloat`. The model reads the record's own coordinate, which is what the marker shows.
- server.js is not part of this model. It is a static file server built on Node's path and file-system libraries.
