/**
 * The `PDFSignViewer` component as one immutable session value: the
 * annotation store, the page overlays, the viewport registry, the
 * add-mode controller, the pages whose overlay captures the pointer,
 * the open label editor and handwriting modals,
 * the persistence slot and the log of dispatched events.  Every public
 * method and every event handler of the component is a function from
 * session to session.
 */
module Viewer {

  import opened Wrappers
  import opened Records
  import opened Geometry
  import Labels
  import Store
  import Overlay
  import Persistence
  import Export
  import Controller

  /** The `CustomEvent`s the component dispatches. */
  datatype Event =
    | PositionAdded(record: Record)
    | PositionRemoved(record: Record)
    | PositionRestored(record: Record)
    | PositionsRestored(count: nat)
    | PositionUpdated(record: Record)
    | Loaded(pages: nat)
    | ZoomChanged(scale: real)

  /** The position the inline label editor was opened for. */
  datatype Draft = Draft(page: int, xPercent: real, yPercent: real, widthPercent: Field<real>, heightPercent: Field<real>)

  /** The position an open handwriting modal will stamp its image at. */
  datatype Anchor = Anchor(page: int, at: Point)

  /** Where a pointer event landed: outside every overlay, or on the overlay of `page`, whose box is `width` x `height` pixels. */
  datatype Target = Outside | OnOverlay(page: int, width: PosReal, height: PosReal)

  datatype Session = Session(
    store: Store.Store,
    overlay: Overlay.Overlay,
    viewports: map<int, Export.Viewport>,
    doc: Option<seq<Export.Viewport>>,
    renderScale: Option<real>,
    ctrl: Controller.Controller,
    captured: set<int>,
    editor: Option<Draft>,
    modals: seq<Anchor>,
    persist: bool,
    storageKey: string,
    storage: Persistence.Storage,
    pending: seq<seq<Persistence.JsonItem>>,
    events: seq<Event>)

  /** A freshly constructed component; `storageKey` is `_storageKey()` for its `src` attribute. */
  function New(storageKey: string, storage: Persistence.Storage): (s: Session)
    ensures s.store == Store.Empty && s.overlay == map[] && s.doc.None?
    ensures !s.persist && s.ctrl == Controller.Initial && s.captured == {}
  {
    Session(Store.Empty, map[], map[], None, None, Controller.Initial, {}, None, [], false, storageKey, storage, [], [])
  }

  /** The session invariant: the identifier invariant, overlays consistent with the list, no listener while add mode is off. */
  predicate Inv(s: Session) {
    && Store.Valid(s.store)
    && Overlay.Consistent(s.overlay, s.store.positions)
    && Controller.Quiet(s.ctrl)
  }

  function Emit(s: Session, e: Event): Session {
    s.(events := s.events + [e])
  }

  /** The persistence slot holds the whole current list. */
  predicate SlotHoldsList(s: Session) {
    && s.storageKey in s.storage
    && s.storage[s.storageKey] == Persistence.ArrayOf(Persistence.Snapshot(s.store.positions))
  }

  /** `_savePositionsToStorage()`: with persistence on, the slot receives the whole current list. */
  function Save(s: Session): (s': Session)
    ensures s'.persist ==> s'.storage == s.storage[s.storageKey := Persistence.ArrayOf(Persistence.Snapshot(s.store.positions))]
    ensures !s.persist ==> s' == s
    ensures s' == s.(storage := s'.storage)
  {
    if s.persist then
      s.(storage := s.storage[s.storageKey := Persistence.ArrayOf(Persistence.Snapshot(s.store.positions))])
    else s
  }

  // ---------------------------------------------------------------- store API

  /** `addPosition(spec)`: the record is stored and drawn, `position-added` is dispatched, the list is saved. `None` when it throws. */
  function AddPosition(s: Session, spec: AddSpec): (Session, Option<Record>) {
    match Store.Add(s.store, spec)
    case Rejected => (s, None)
    case Added(st, r) =>
      (Save(Emit(s.(store := st, overlay := Overlay.RenderMarker(s.overlay, r)), PositionAdded(r))), Some(r))
  }

  /** `removePosition(id)`: record and markers go, the record is pushed for undo, the list is saved, `position-removed` is dispatched. */
  function RemovePosition(s: Session, id: nat): (Session, Option<Record>) {
    var (st, removed) := Store.Remove(s.store, id);
    if removed.None? then (s, None)
    else (Emit(Save(s.(store := st, overlay := Overlay.RemoveMarker(s.overlay, id))), PositionRemoved(removed.value)), removed)
  }

  /** `undoLast()`: the popped record is re-appended and drawn, `position-restored` is dispatched, the list is saved. */
  function UndoLast(s: Session): (Session, Option<Record>) {
    var (st, restored) := Store.Undo(s.store);
    if restored.None? then (s, None)
    else
      (Save(Emit(s.(store := st, overlay := Overlay.RenderMarker(s.overlay, restored.value)), PositionRestored(restored.value))),
       restored)
  }

  /** `clearPositions()`: list, undo history and markers are dropped.  Nothing is saved and no event is dispatched. */
  function ClearPositions(s: Session): Session {
    s.(store := Store.Clear(s.store), overlay := Overlay.ClearMarkers(s.overlay))
  }

  /** `getPositions()`: a copy of the list, in insertion order. */
  function GetPositions(s: Session): seq<Record> {
    s.store.positions
  }

  // ---------------------------------------------------------------- persistence

  /** One element of the replay: `p.id = this._nextId++`, push, draw. */
  function RestoreOne(s: Session, p: Record): Session {
    var st := Store.Append(s.store, p);
    s.(store := st, overlay := Overlay.RenderMarker(s.overlay, st.positions[|s.store.positions|]))
  }

  /**
   * The `forEach` of the replay, stopping at the first element that is
   * not an object: `this._nextId++` on the right of `p.id = ...` is
   * evaluated before the assignment to a primitive throws, so that
   * element still consumes an identifier.
   */
  function RestoreEach(s: Session, items: seq<Persistence.JsonItem>): Session
    decreases |items|
  {
    if |items| == 0 then s
    else if items[0].Scalar? then s.(store := s.store.(nextId := s.store.nextId + 1))
    else RestoreEach(RestoreOne(s, items[0].record), items[1..])
  }

  /** The `restore` closure: replay, then `positions-restored` with the array length if no element threw.  Nothing is saved. */
  function Restore(s: Session, items: seq<Persistence.JsonItem>): Session {
    var s' := RestoreEach(s, items);
    if Persistence.LeadingObjects(items) == |items| then Emit(s', PositionsRestored(|items|)) else s'
  }

  /**
   * `_loadPositionsFromStorage()`: disabled persistence, a missing or
   * empty value, unparseable text and a non-array value all leave the
   * session unchanged; an array is replayed now if a document is loaded,
   * and otherwise once the `loaded` event fires.
   */
  function LoadFromStorage(s: Session): Session {
    if !s.persist || s.storageKey !in s.storage then s
    else match s.storage[s.storageKey]
      case ArrayOf(items) => if s.doc.Some? then Restore(s, items) else s.(pending := s.pending + [items])
      case _ => s
  }

  /** `enablePersistence(enable)`. */
  function EnablePersistence(s: Session, enable: bool): Session {
    var s' := s.(persist := enable);
    if enable then LoadFromStorage(s') else s'
  }

  /** The `loaded` listeners registered by earlier replays, in registration order. */
  function RunPending(s: Session, queue: seq<seq<Persistence.JsonItem>>): Session
    decreases |queue|
  {
    if |queue| == 0 then s else RunPending(Restore(s, queue[0]), queue[1..])
  }

  // ---------------------------------------------------------------- rendering

  /** `_pageViewports[i] = ...` for pages `1..n`; entries of other pages are kept. */
  function RecordViewports(vps: map<int, Export.Viewport>, pages: seq<Export.Viewport>, n: nat): (vps': map<int, Export.Viewport>)
    requires n <= |pages|
    ensures forall p | 1 <= p <= n :: p in vps' && vps'[p] == pages[p - 1]
    ensures forall p | p in vps && !(1 <= p <= n) :: p in vps' && vps'[p] == vps[p]
    ensures forall p | p in vps' :: p in vps || 1 <= p <= n
  {
    if n == 0 then vps else RecordViewports(vps, pages, n - 1)[n := pages[n - 1]]
  }

  /**
   * `_renderAllPages()` for a document with the given native page sizes.
   * Emptying the viewer drops the open label editor with the old pages,
   * and the new overlays are built without the `capture` class.
   */
  function RenderAllPages(s: Session, pages: seq<Export.Viewport>): Session {
    s.(viewports := RecordViewports(s.viewports, pages, |pages|),
       overlay := Overlay.RenderAll(|pages|, s.store.positions),
       captured := {},
       editor := None)
  }

  /** `load(src)` once the bytes are parsed: render every page, dispatch `loaded`, run the pending replays. */
  function LoadDocument(s: Session, pages: seq<Export.Viewport>): Session {
    var s' := Emit(RenderAllPages(s.(doc := Some(pages)), pages), Loaded(|pages|));
    RunPending(s'.(pending := []), s.pending)
  }

  /** `zoomTo(scale)`: clamp the scale, then re-render if a document is loaded. */
  function ZoomTo(s: Session, scale: real): Session {
    var s' := s.(renderScale := Some(ZoomClamp(scale)));
    if s.doc.None? then s'
    else Emit(RenderAllPages(s', s.doc.value), ZoomChanged(ZoomClamp(scale)))
  }

  /** `this._renderScale || 1`. */
  function CurrentScale(s: Session): real {
    if s.renderScale.Some? && s.renderScale.value != 0.0 then s.renderScale.value else 1.0
  }

  function ZoomIn(s: Session): Session {
    ZoomTo(s, CurrentScale(s) + 0.25)
  }

  function ZoomOut(s: Session): Session {
    ZoomTo(s, CurrentScale(s) - 0.25)
  }

  /** `goToPage(n)`: the page scrolled into view, if its container exists. */
  function GoToPage(s: Session, n: int): (target: Option<int>)
    ensures target.Some? ==> target.value in s.overlay && 1 <= target.value
    ensures s.doc.Some? && target.Some? && |s.doc.value| >= 1 ==> target.value <= |s.doc.value|
    ensures s.doc.Some? && 1 <= n <= |s.doc.value| && n in s.overlay ==> target == Some(n)
    ensures s.doc.Some? && 1 <= |s.doc.value| < n && |s.doc.value| in s.overlay ==> target == Some(|s.doc.value|)
    ensures n < 1 && 1 in s.overlay ==> target == Some(1)
    ensures s.doc.None? && 1 <= n && n in s.overlay ==> target == Some(n)
  {
    var page := PageClamp(n, if s.doc.Some? then Some(|s.doc.value|) else None);
    if page in s.overlay then Some(page) else None
  }

  // ---------------------------------------------------------------- interaction

  /**
   * `enableAddMode(mode)`: a truthy mode gives every overlay that exists
   * now the `capture` class, a falsy one takes it from all of them.
   */
  function EnableAddMode(s: Session, m: Controller.Mode): Session {
    s.(ctrl := Controller.EnableAddMode(s.ctrl, m),
       captured := if m.Truthy() then s.overlay.Keys else {})
  }

  /**
   * The pointer reaches an overlay: it exists only for a rendered page,
   * and without the `capture` class it and its markers take no pointer
   * events, which go to the canvas beneath instead.
   */
  predicate Hits(s: Session, t: Target) {
    t.OnOverlay? && t.page in s.overlay && t.page in s.captured
  }

  /** A `click` on the viewer at offset `(dx, dy)` of the target overlay: `_onClick` opens the label editor for a point. */
  function Click(s: Session, t: Target, dx: real, dy: real): Session {
    if Controller.ClickActs(s.ctrl) && Hits(s, t) then
      var p := ClickPoint(dx, dy, t.width, t.height);
      s.(editor := Some(Draft(t.page, p.xPercent, p.yPercent, Absent, Absent)))
    else s
  }

  /**
   * A rectangle gesture pressed at `(sx, sy)` and released at `(ex, ey)`:
   * too small a gesture is dropped, otherwise the label editor opens for
   * the rectangle.
   */
  function RectDrag(s: Session, t: Target, sx: real, sy: real, ex: real, ey: real): Session {
    if Controller.RectStartActs(s.ctrl) && Hits(s, t) then
      match RectGesture(sx, sy, ex, ey, t.width, t.height)
      case None => s
      case Some(g) => s.(editor := Some(Draft(t.page, g.xPercent, g.yPercent, Val(g.widthPercent), Val(g.heightPercent))))
    else s
  }

  /** The argument `_showLabelEditor`'s Add button passes to `addPosition`. */
  function DraftSpec(d: Draft, input: string): AddSpec {
    AddSpec(Some(d.page), Number(d.xPercent), Number(d.yPercent), Labels.LabelOf(input), d.widthPercent, d.heightPercent, Absent)
  }

  /** The label editor's Add button with the text `input`. */
  function ConfirmLabel(s: Session, input: string): Session {
    if s.editor.None? then s
    else AddPosition(s, DraftSpec(s.editor.value, input)).0.(editor := None)
  }

  /** The label editor's Cancel button. */
  function CancelLabel(s: Session): Session {
    s.(editor := None)
  }

  /** A `mousedown` in draw mode: `_drawPosition` turns add mode off and opens a handwriting modal for that spot. */
  function DrawPosition(s: Session, t: Target, dx: real, dy: real): Session {
    if Controller.DrawPositionActs(s.ctrl) && Hits(s, t) then
      var s' := EnableAddMode(s, Controller.Off);
      s'.(modals := s'.modals + [Anchor(t.page, DrawPoint(dx, dy, t.width, t.height))])
    else s
  }

  /** The image record a handwriting modal saves: no width or height property, a `null` label. */
  function HandwriteRecord(a: Anchor, image: string): Record {
    Record(0, a.page, a.at.xPercent, a.at.yPercent, Null, Absent, Absent, Val(image))
  }

  /** Save button of modal `k` with the canvas rendered to `image`. */
  function SaveHandwrite(s: Session, k: nat, image: string): Session {
    if k >= |s.modals| then s
    else
      var s1 := s.(modals := s.modals[..k] + s.modals[k + 1..]);
      var st := Store.Append(s1.store, HandwriteRecord(s.modals[k], image));
      var r := st.positions[|s1.store.positions|];
      Save(Emit(s1.(store := st, overlay := Overlay.RenderMarker(s1.overlay, r)), PositionAdded(r)))
  }

  /** Cancel button of modal `k`. */
  function CancelHandwrite(s: Session, k: nat): Session {
    if k >= |s.modals| then s else s.(modals := s.modals[..k] + s.modals[k + 1..])
  }

  /** `rs` with the coordinates of element `k` replaced. */
  function MoveAt(rs: seq<Record>, k: nat, x: real, y: real): (out: seq<Record>)
    requires k < |rs|
    ensures |out| == |rs|
    ensures out[k] == rs[k].(xPercent := x, yPercent := y)
    ensures forall j | 0 <= j < |rs| && j != k :: out[j] == rs[j]
  {
    rs[k := rs[k].(xPercent := x, yPercent := y)]
  }

  /**
   * A drag of record `id`'s marker: the pointer moves by `moves[i]`
   * pixels from where it was pressed, on an overlay of `width` x `height`
   * pixels; the release commits the last position shown.  Only a point
   * marker carries the drag handler, and it receives the press only on a
   * rendered page whose overlay captures the pointer.
   */
  function DragMarker(s: Session, id: nat, moves: seq<(real, real)>, width: PosReal, height: PosReal): Session {
    var k := Store.IndexOf(s.store.positions, id);
    if k == -1 || !Draggable(s.store.positions[k]) || s.store.positions[k].page !in s.overlay
       || s.store.positions[k].page !in s.captured then s
    else
      var r := s.store.positions[k];
      var x := DragRelease(r.xPercent, r.xPercent, seq(|moves|, i requires 0 <= i < |moves| => moves[i].0), width);
      var y := DragRelease(r.yPercent, r.yPercent, seq(|moves|, i requires 0 <= i < |moves| => moves[i].1), height);
      var ps := MoveAt(s.store.positions, k, x, y);
      Save(Emit(s.(store := s.store.(positions := ps)), PositionUpdated(ps[k])))
  }

  // ---------------------------------------------------------------- export

  /** `exportAnnotatedPdf()` up to `pdfDoc.save()`: `None` when no document was loaded (pdf-lib cannot load `null`). */
  method ExportAnnotated(s: Session) returns (result: Option<Export.ExportResult>)
    ensures s.doc.None? <==> result.None?
    ensures result.Some? && result.value.Drawn? ==>
              result.value.ops == Export.Planned(s.store.positions, s.viewports)
    ensures result.Some? ==>
              (result.value.GetPageFailed? <==>
                 exists k | 0 <= k < |s.store.positions| :: !Export.InDocument(s.store.positions[k].page, |s.doc.value|))
  {
    if s.doc.None? {
      return None;
    }
    var r := Export.ExportMarkers(s.store.positions, s.viewports, |s.doc.value|);
    return Some(r);
  }
}
