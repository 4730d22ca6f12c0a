/**
 * What each public method and event handler of the component promises
 * its caller, and the scenarios that tie several of them together.
 */
module ViewerProperties {

  import opened Wrappers
  import opened Records
  import opened Geometry
  import Labels
  import Store
  import Overlay
  import Persistence
  import Export
  import Controller
  import opened Viewer
  import ViewerInvariants

  /**
   * `addPosition`: a non-number coordinate throws and changes nothing.
   * Otherwise exactly one record is appended under the old counter, it is
   * drawn on its page if that page has a container, `position-added`
   * carries it, and with persistence on the slot holds the new list.
   */
  lemma AddPositionContract(s: Session, spec: AddSpec)
    ensures var (s', r) := AddPosition(s, spec);
            && (r.None? <==> !(spec.xPercent.Number? && spec.yPercent.Number?))
            && (r.None? ==> s' == s)
            && (r.Some? ==>
                  && GetPositions(s') == GetPositions(s) + [r.value]
                  && r.value.id == s.store.nextId && s'.store.nextId == s.store.nextId + 1
                  && r.value.page == (if spec.page.Some? then spec.page.value else 1)
                  && Number(r.value.xPercent) == spec.xPercent && Number(r.value.yPercent) == spec.yPercent
                  && r.value.labelText == OrNull(spec.labelText) && r.value.image == OrNull(spec.image)
                  && r.value.widthPercent == OrNull(spec.widthPercent)
                  && r.value.heightPercent == OrNull(spec.heightPercent)
                  && s'.store.undo == s.store.undo
                  && Classify(r.value) == RectMarker
                  && s'.events == s.events + [PositionAdded(r.value)]
                  && (r.value.page in s.overlay ==> s'.overlay[r.value.page] == s.overlay[r.value.page] + [r.value.id])
                  && (s.persist ==> SlotHoldsList(s')))
  {
    if Store.Add(s.store, spec).Added? {
      Store.AddedRecordIsRect(s.store, spec);
    }
  }

  /**
   * `removePosition`: an unknown identifier returns `null` and changes
   * nothing.  Otherwise exactly that record leaves the list, the others
   * keep their order, it is on top of the undo stack, and no overlay
   * shows its marker any more.  With persistence on, the slot holds the
   * shorter list.
   */
  lemma RemovePositionContract(s: Session, id: nat)
    requires Inv(s)
    ensures var (s', r) := RemovePosition(s, id);
            && (r.None? <==> !HasId(s.store.positions, id))
            && (r.None? ==> s' == s)
            && (r.Some? ==>
                  && r.value.id == id
                  && (exists k | 0 <= k < |s.store.positions| ::
                        s.store.positions[k] == r.value
                        && (forall j | 0 <= j < k :: s.store.positions[j].id != id)
                        && s'.store.positions == s.store.positions[..k] + s.store.positions[k + 1..])
                  && s'.store.undo == s.store.undo + [r.value]
                  && s'.events == s.events + [PositionRemoved(r.value)]
                  && (forall p | p in s'.overlay :: id !in s'.overlay[p])
                  && (s.persist ==> SlotHoldsList(s')))
  {
    var (s', r) := RemovePosition(s, id);
    if r.Some? {
      RemovePositionInvariants(s, id);
    }
  }

  lemma RemovePositionInvariants(s: Session, id: nat)
    requires Inv(s) && HasId(s.store.positions, id)
    ensures forall p | p in RemovePosition(s, id).0.overlay :: id !in RemovePosition(s, id).0.overlay[p]
  {
    var k := Store.IndexOf(s.store.positions, id);
    var ps := s.store.positions;
    var rest := ps[..k] + ps[k + 1..];
    Overlay.RemoveMarkerKeepsConsistent(s.overlay, ps, k);
    forall j | 0 <= j < |rest|
      ensures rest[j].id != id
    {
      var j' := if j < k then j else j + 1;
      assert rest[j] == ps[j'];
    }
    forall p | p in s.overlay {
      Overlay.IdsOnPageExcludes(rest, p, id);
    }
  }

  /**
   * `undoLast`: nothing to undo returns `null` and changes nothing.
   * Otherwise the most recently removed record comes back at the end of
   * the list with its own identifier, its marker is drawn again, and
   * with persistence on the slot holds the longer list.
   */
  lemma UndoLastContract(s: Session)
    ensures var (s', r) := UndoLast(s);
            && (r.None? <==> |s.store.undo| == 0)
            && (r.None? ==> s' == s)
            && (r.Some? ==>
                  && r.value == s.store.undo[|s.store.undo| - 1]
                  && GetPositions(s') == GetPositions(s) + [r.value]
                  && s'.store.undo == s.store.undo[..|s.store.undo| - 1]
                  && s'.store.nextId == s.store.nextId
                  && s'.events == s.events + [PositionRestored(r.value)]
                  && (r.value.page in s.overlay ==> s'.overlay[r.value.page] == s.overlay[r.value.page] + [r.value.id])
                  && (s.persist ==> SlotHoldsList(s')))
  {
  }

  /**
   * Removing a record and undoing at once gives back an equal record,
   * identifier included, at the end of the list; the undo stack is as
   * before, and the record's page shows its marker once again.
   */
  lemma RemoveThenUndoRestores(s: Session, id: nat)
    requires Inv(s) && HasId(s.store.positions, id)
    ensures var (mid, removed) := RemovePosition(s, id);
            var (s', restored) := UndoLast(mid);
            && removed.Some? && restored == removed && restored.value.id == id
            && GetPositions(s') == GetPositions(mid) + [restored.value]
            && multiset(GetPositions(s')) == multiset(GetPositions(s))
            && s'.store.undo == s.store.undo
            && s'.store.nextId == s.store.nextId
            && Inv(s')
            && (restored.value.page in s'.overlay ==>
                  multiset(s'.overlay[restored.value.page])[id] == 1)
  {
    Store.RemoveThenUndo(s.store, id);
    var (mid, removed) := RemovePosition(s, id);
    ViewerInvariants.RemovePositionInv(s, id);
    ViewerInvariants.UndoLastInv(mid);
    var (s', restored) := UndoLast(mid);
    Overlay.ConsistentShowsEachOnce(s'.overlay, s'.store.positions);
    assert s'.store.positions[|s'.store.positions| - 1] == restored.value;
  }

  /**
   * `clearPositions`: list, undo stack and every marker are gone, the
   * counter is kept, so a following `undoLast` returns `null`.  The slot
   * is not written and no event is dispatched.
   */
  lemma ClearThenUndo(s: Session)
    ensures var c := ClearPositions(s);
            && GetPositions(c) == [] && c.store.undo == []
            && c.store.nextId == s.store.nextId
            && (forall p | p in c.overlay :: c.overlay[p] == [])
            && c.overlay.Keys == s.overlay.Keys
            && c.storage == s.storage && c.events == s.events
            && UndoLast(c) == (c, None)
  {
  }

  /**
   * Replay leaves the session unchanged when persistence is off, when
   * nothing or an empty string is stored, when the stored text does not
   * parse, and when it parses to something other than an array.
   */
  lemma LoadFromStorageIgnores(s: Session)
    requires
      || !s.persist
      || s.storageKey !in s.storage
      || !s.storage[s.storageKey].ArrayOf?
    ensures LoadFromStorage(s) == s
  {
  }

  lemma RestoreOneAppends(s: Session, p: Record)
    ensures RestoreOne(s, p).store.positions == s.store.positions + [p.(id := s.store.nextId)]
    ensures RestoreOne(s, p).store.nextId == s.store.nextId + 1
    ensures RestoreOne(s, p).store.undo == s.store.undo
    ensures RestoreOne(s, p).events == s.events && RestoreOne(s, p).storage == s.storage
  {
  }

  /**
   * The replay's counter: one identifier for each leading object, and one
   * more for the element that stops it.
   */
  lemma {:induction false} RestoreEachCounter(s: Session, items: seq<Persistence.JsonItem>)
    ensures RestoreEach(s, items).store.nextId
            == s.store.nextId + Persistence.LeadingObjects(items) + (if Persistence.LeadingObjects(items) < |items| then 1 else 0)
    decreases |items|
  {
    if |items| > 0 && items[0].Object? {
      var t := RestoreOne(s, items[0].record);
      assert t.store.nextId == s.store.nextId + 1;
      assert RestoreEach(s, items) == RestoreEach(t, items[1..]);
      assert Persistence.LeadingObjects(items) == 1 + Persistence.LeadingObjects(items[1..]);
      RestoreEachCounter(t, items[1..]);
    }
  }

  lemma {:induction false} RestoreEachAppends(s: Session, items: seq<Persistence.JsonItem>)
    ensures RestoreEach(s, items).store.positions
            == s.store.positions + Persistence.Reissue(items, Persistence.LeadingObjects(items), s.store.nextId)
    ensures RestoreEach(s, items).store.undo == s.store.undo
    ensures RestoreEach(s, items).events == s.events && RestoreEach(s, items).storage == s.storage
    decreases |items|
  {
    var n := Persistence.LeadingObjects(items);
    if |items| == 0 {
      assert Persistence.Reissue(items, n, s.store.nextId) == [];
    } else if items[0].Scalar? {
      assert RestoreEach(s, items) == s.(store := s.store.(nextId := s.store.nextId + 1));
      assert n == 0;
      assert Persistence.Reissue(items, n, s.store.nextId) == [];
    } else {
      var t := RestoreOne(s, items[0].record);
      RestoreOneAppends(s, items[0].record);
      RestoreEachAppends(t, items[1..]);
      RestoreEachConsAppends(s, items, RestoreEach(t, items[1..]));
    }
  }

  /** One object step of the replay: the head is appended under `nextId`, the rest follow from `nextId + 1`. */
  lemma RestoreEachConsAppends(s: Session, items: seq<Persistence.JsonItem>, rest: Session)
    requires |items| > 0 && items[0].Object?
    requires rest == RestoreEach(RestoreOne(s, items[0].record), items[1..])
    requires rest.store.positions
             == s.store.positions + [items[0].record.(id := s.store.nextId)]
                + Persistence.Reissue(items[1..], Persistence.LeadingObjects(items[1..]), s.store.nextId + 1)
    ensures RestoreEach(s, items).store.positions
            == s.store.positions + Persistence.Reissue(items, Persistence.LeadingObjects(items), s.store.nextId)
  {
    var n := Persistence.LeadingObjects(items);
    var m := Persistence.LeadingObjects(items[1..]);
    assert n == 1 + m;
    assert RestoreEach(s, items) == rest;
    var head := [items[0].record.(id := s.store.nextId)];
    var tail := Persistence.Reissue(items[1..], m, s.store.nextId + 1);
    Persistence.ReissueCons(items, n, s.store.nextId);
    assert Persistence.Reissue(items, n, s.store.nextId) == head + tail;
    assert rest.store.positions == s.store.positions + head + tail;
    AppendAssociates(s.store.positions, head, tail);
  }

  lemma AppendAssociates(a: seq<Record>, b: seq<Record>, c: seq<Record>)
    ensures a + b + c == a + (b + c)
  {
  }

  /**
   * The replay appends the objects of the stored array in array order,
   * with identifiers `nextId, nextId + 1, ...` whatever identifiers they
   * were stored with, and advances the counter by their number.  The
   * first non-object element ends the replay, and consumes one more
   * identifier; only a complete replay dispatches `positions-restored`,
   * with the array length.
   */
  lemma RestoreAppendsReissued(s: Session, items: seq<Persistence.JsonItem>)
    ensures var s' := Restore(s, items);
            var n := Persistence.LeadingObjects(items);
            && GetPositions(s') == GetPositions(s) + Persistence.Reissue(items, n, s.store.nextId)
            && s'.store.nextId == s.store.nextId + n + (if n < |items| then 1 else 0)
            && s'.store.undo == s.store.undo
            && s'.storage == s.storage
            && s'.events == s.events + (if n == |items| then [PositionsRestored(|items|)] else [])
  {
    RestoreEachAppends(s, items);
    RestoreEachCounter(s, items);
  }

  /**
   * Saving, then opening the same document in a reopened component, brings
   * back the same records in the same order, renumbered from 1; it does
   * not matter whether persistence is enabled before or after the
   * document loads.
   */
  lemma PersistenceRoundTrip(s: Session, pages: seq<Export.Viewport>)
    requires s.persist
    ensures var reopened := New(s.storageKey, Save(s).storage);
            var after := EnablePersistence(LoadDocument(reopened, pages), true);
            var before := LoadDocument(EnablePersistence(reopened, true), pages);
            && GetPositions(after) == GetPositions(before)
            && |GetPositions(after)| == |GetPositions(s)|
            && (forall k | 0 <= k < |GetPositions(s)| :: GetPositions(after)[k] == GetPositions(s)[k].(id := 1 + k))
            && after.store.nextId == 1 + |GetPositions(s)|
  {
    var items := Persistence.Snapshot(s.store.positions);
    Persistence.SnapshotReadsBack(s.store.positions, 1);
    var reopened := New(s.storageKey, Save(s).storage);
    assert reopened.storage[reopened.storageKey] == Persistence.ArrayOf(items);
    // Enabled after the document loaded: replayed at once.
    var loaded := LoadDocument(reopened, pages);
    assert loaded.store == Store.Empty && loaded.storage == reopened.storage && loaded.doc.Some?;
    var after := EnablePersistence(loaded, true);
    assert after == Restore(loaded.(persist := true), items);
    RestoreAppendsReissued(loaded.(persist := true), items);
    // Enabled before: queued, then replayed by the `loaded` listener.
    var queued := EnablePersistence(reopened, true);
    assert queued.pending == [items] && queued.store == Store.Empty;
    var s2 := Emit(RenderAllPages(queued.(doc := Some(pages)), pages), Loaded(|pages|));
    var before := LoadDocument(queued, pages);
    var ready := s2.(pending := []);
    assert before == RunPending(ready, [items]);
    assert [items][1..] == [];
    assert RunPending(ready, [items]) == RunPending(Restore(ready, items), []);
    assert before == Restore(ready, items);
    RestoreAppendsReissued(ready, items);
  }

  /**
   * Because `clearPositions` does not write the slot, cleared records come
   * back the next time persistence is enabled on the document.
   */
  lemma ClearedRecordsComeBack(s: Session)
    requires s.persist && s.doc.Some?
    requires SlotHoldsList(s)
    ensures var s' := EnablePersistence(ClearPositions(s), true);
            && |GetPositions(s')| == |GetPositions(s)|
            && forall k | 0 <= k < |GetPositions(s)| ::
                 GetPositions(s')[k] == GetPositions(s)[k].(id := s.store.nextId + k)
  {
    var items := Persistence.Snapshot(GetPositions(s));
    Persistence.SnapshotReadsBack(s.store.positions, s.store.nextId);
    var c := ClearPositions(s).(persist := true);
    assert c.storage[c.storageKey] == Persistence.ArrayOf(items) && c.doc.Some?;
    assert EnablePersistence(ClearPositions(s), true) == Restore(c, items);
    RestoreAppendsReissued(c, items);
    assert GetPositions(c) == [];
  }

  /**
   * Saving a handwriting modal appends an image record at the spot the
   * modal was opened for, under the next identifier.  It lacks width and
   * height properties, so a non-empty image is drawn as an image marker,
   * which cannot be dragged.  The marker is drawn on the modal's page if
   * that page has a container, and with persistence on the slot holds
   * the new list.
   */
  lemma SaveHandwriteContract(s: Session, k: nat, image: string)
    requires k < |s.modals|
    ensures var s' := SaveHandwrite(s, k, image);
            var a := s.modals[k];
            var r := GetPositions(s')[|GetPositions(s)|];
            && |GetPositions(s')| == |GetPositions(s)| + 1
            && GetPositions(s')[..|GetPositions(s)|] == GetPositions(s)
            && r.id == s.store.nextId && s'.store.nextId == s.store.nextId + 1
            && r.page == a.page && r.xPercent == a.at.xPercent && r.yPercent == a.at.yPercent
            && r.labelText == Null && r.image == Val(image)
            && (Classify(r) == ImageMarker <==> image != "")
            && (image != "" ==> !Draggable(r))
            && s'.modals == s.modals[..k] + s.modals[k + 1..]
            && s'.events == s.events + [PositionAdded(r)]
            && (a.page in s.overlay ==> s'.overlay[a.page] == s.overlay[a.page] + [r.id])
            && (s.persist ==> SlotHoldsList(s'))
  {
  }

  /**
   * The label editor's Add button always stores a rectangle-classified
   * record, even for a plain click, with the trimmed text as its label:
   * a click's draft has no size, which becomes `null`, and a rectangle's
   * draft keeps its width and height.
   */
  lemma ConfirmLabelStoresRect(s: Session, input: string)
    requires s.editor.Some?
    ensures var s' := ConfirmLabel(s, input);
            var d := s.editor.value;
            var r := GetPositions(s')[|GetPositions(s)|];
            && |GetPositions(s')| == |GetPositions(s)| + 1
            && r.page == d.page && r.xPercent == d.xPercent && r.yPercent == d.yPercent
            && r.labelText == Labels.LabelOf(input)
            && r.widthPercent == OrNull(d.widthPercent) && r.heightPercent == OrNull(d.heightPercent)
            && r.image == Null
            && Classify(r) == RectMarker && !Draggable(r)
            && s'.editor.None?
  {
    AddPositionContract(s, DraftSpec(s.editor.value, input));
  }

  /**
   * After switching from click mode to rectangle mode, a click on a
   * rendered page still opens the label editor for a point: both calls
   * give its overlay the `capture` class.  A rectangle gesture
   * followed by the click the browser fires for it ends with the point
   * editor in place of the rectangle one.
   */
  lemma ClickThenRectOpensPointEditor(s: Session, t: Target, sx: real, sy: real, ex: real, ey: real)
    requires t.OnOverlay? && t.page in s.overlay
    requires Abs(ex - sx) >= MinRectPixels && Abs(ey - sy) >= MinRectPixels
    ensures var m := EnableAddMode(EnableAddMode(s, Controller.Click), Controller.Rect);
            var p := ClickPoint(ex, ey, t.width, t.height);
            var g := RectGesture(sx, sy, ex, ey, t.width, t.height).value;
            && RectDrag(m, t, sx, sy, ex, ey).editor == Some(Draft(t.page, g.xPercent, g.yPercent, Val(g.widthPercent), Val(g.heightPercent)))
            && Click(RectDrag(m, t, sx, sy, ex, ey), t, ex, ey).editor == Some(Draft(t.page, p.xPercent, p.yPercent, Absent, Absent))
  {
    Controller.ClickThenRectKeepsClickHandler(s.ctrl);
  }

  /**
   * Choosing the spot for a handwriting stamp turns add mode off and
   * detaches every listener before the modal opens.
   */
  lemma DrawPositionDetachesAll(s: Session, t: Target, dx: real, dy: real)
    requires Controller.DrawPositionActs(s.ctrl) && Hits(s, t)
    ensures var s' := DrawPosition(s, t, dx, dy);
            && s'.ctrl == Controller.Controller(Controller.Off, {})
            && s'.captured == {}
            && s'.modals == s.modals + [Anchor(t.page, DrawPoint(dx, dy, t.width, t.height))]
            && GetPositions(s') == GetPositions(s)
  {
  }

  /**
   * A drag of a point marker with at least one pointer move commits
   * coordinates inside [0, 100], however far the pointer went.  Only
   * those two fields of that record change; identifier, page, label,
   * shape, list order and the other records are kept.  The committed
   * position is the clamp of the start shifted by the last pointer delta
   * as a percentage of the overlay; the release saves the list even when
   * the pointer never moved.  A marker whose overlay lacks the `capture`
   * class never receives the press.
   */
  lemma DragMarkerContract(s: Session, id: nat, moves: seq<(real, real)>, width: PosReal, height: PosReal)
    requires HasId(s.store.positions, id)
    ensures var s' := DragMarker(s, id, moves, width, height);
            var k := Store.IndexOf(s.store.positions, id);
            var r := s.store.positions[k];
            var r' := GetPositions(s')[k];
            var live := Draggable(r) && r.page in s.overlay && r.page in s.captured;
            && |GetPositions(s')| == |GetPositions(s)|
            && (forall j | 0 <= j < |GetPositions(s)| && j != k :: GetPositions(s')[j] == GetPositions(s)[j])
            && r' == r.(xPercent := r'.xPercent, yPercent := r'.yPercent)
            && s'.store.undo == s.store.undo && s'.store.nextId == s.store.nextId
            && (live && |moves| > 0 ==>
                  && r'.xPercent == Clamp(r.xPercent + moves[|moves| - 1].0 / width * 100.0)
                  && r'.yPercent == Clamp(r.yPercent + moves[|moves| - 1].1 / height * 100.0)
                  && 0.0 <= r'.xPercent <= 100.0 && 0.0 <= r'.yPercent <= 100.0)
            && (!live ==> s' == s)
            && (live && |moves| == 0 ==> r' == r)
            && (live ==> s'.events == s.events + [PositionUpdated(r')])
            && (live ==> (s.persist ==> SlotHoldsList(s')))
  {
    var k := Store.IndexOf(s.store.positions, id);
    var r := s.store.positions[k];
    if Draggable(r) && r.page in s.overlay && r.page in s.captured {
      var x := DragRelease(r.xPercent, r.xPercent, seq(|moves|, i requires 0 <= i < |moves| => moves[i].0), width);
      var y := DragRelease(r.yPercent, r.yPercent, seq(|moves|, i requires 0 <= i < |moves| => moves[i].1), height);
      var ps := MoveAt(s.store.positions, k, x, y);
      var moved := Emit(s.(store := s.store.(positions := ps)), PositionUpdated(ps[k]));
      assert DragMarker(s, id, moves, width, height) == Save(moved);
    }
  }

  /** `zoomTo` keeps the scale within [0.25, 5] and, after re-rendering, the overlays show the list afresh. */
  lemma ZoomToContract(s: Session, scale: real)
    ensures var s' := ZoomTo(s, scale);
            && s'.renderScale == Some(ZoomClamp(scale))
            && MinScale <= s'.renderScale.value <= MaxScale
            && s'.store == s.store
            && (s.doc.Some? ==> s'.overlay == Overlay.RenderAll(|s.doc.value|, s.store.positions))
            && (s.doc.Some? ==> s'.captured == {} && s'.editor.None?)
            && (s.doc.None? ==> s'.overlay == s.overlay)
  {
  }

  /**
   * Re-rendering after a zoom builds overlays without the `capture`
   * class even while add mode stays on: until `enableAddMode` is called
   * again, clicks, rectangle gestures, draw presses and marker drags on
   * the new pages reach no handler.
   */
  lemma ZoomLeavesGesturesInert(s: Session, scale: real, t: Target, x0: real, y0: real, x1: real, y1: real,
                                id: nat, moves: seq<(real, real)>, width: PosReal, height: PosReal)
    requires s.doc.Some?
    ensures var z := ZoomTo(s, scale);
            && z.ctrl == s.ctrl
            && Click(z, t, x0, y0) == z
            && RectDrag(z, t, x0, y0, x1, y1) == z
            && DrawPosition(z, t, x0, y0) == z
            && DragMarker(z, id, moves, width, height) == z
  {
  }

  /** Entering a mode again after the zoom gives every rendered overlay the `capture` class back. */
  lemma ReenableRestoresCapture(s: Session, scale: real, m: Controller.Mode)
    requires s.doc.Some? && m.Truthy()
    ensures var z := EnableAddMode(ZoomTo(s, scale), m);
            && z.captured == z.overlay.Keys
            && (forall p | 1 <= p <= |s.doc.value| :: p in z.captured)
  {
    Overlay.RenderAllConsistent(|s.doc.value|, s.store.positions);
  }

  /**
   * The zoom buttons step the current scale, 1 when none was set, by
   * 0.25 and clamp the result, so a step past either bound stays at the
   * bound; the store is never touched.
   */
  lemma ZoomStepsContract(s: Session)
    ensures ZoomIn(s).renderScale == Some(ZoomClamp(CurrentScale(s) + 0.25))
    ensures ZoomOut(s).renderScale == Some(ZoomClamp(CurrentScale(s) - 0.25))
    ensures s.renderScale.None? ==> ZoomIn(s).renderScale == Some(1.25) && ZoomOut(s).renderScale == Some(0.75)
    ensures s.renderScale == Some(MaxScale) ==> ZoomIn(s).renderScale == Some(MaxScale)
    ensures s.renderScale == Some(MinScale) ==> ZoomOut(s).renderScale == Some(MinScale)
    ensures ZoomIn(s).store == s.store && ZoomOut(s).store == s.store
  {
    ZoomToScale(s, CurrentScale(s) + 0.25);
    ZoomToScale(s, CurrentScale(s) - 0.25);
  }

  lemma ZoomToScale(s: Session, scale: real)
    ensures ZoomTo(s, scale).renderScale == Some(ZoomClamp(scale))
    ensures ZoomTo(s, scale).store == s.store
  {
  }

  /** Inside the range, a step in followed by a step out returns to the scale before. */
  lemma ZoomInThenOut(s: Session)
    requires s.renderScale.Some? && MinScale <= s.renderScale.value <= MaxScale - 0.25
    ensures ZoomOut(ZoomIn(s)).renderScale == s.renderScale
  {
    var v := s.renderScale.value;
    var z := ZoomIn(s);
    ZoomStepsContract(s);
    assert z.renderScale == Some(v + 0.25);
    assert CurrentScale(z) == v + 0.25;
    ZoomStepsContract(z);
  }

  /**
   * The label editor's Cancel button closes the editor and stores, draws,
   * saves and announces nothing; the cancelled editor can no longer add
   * a position.
   */
  lemma CancelLabelContract(s: Session, input: string)
    ensures var c := CancelLabel(s);
            && c.editor.None?
            && c.store == s.store && c.overlay == s.overlay && c.storage == s.storage
            && c.events == s.events && c.modals == s.modals
            && ConfirmLabel(c, input) == c
  {
  }

  /**
   * A handwriting modal's Cancel button removes that modal only, and
   * stores, draws, saves and announces nothing.
   */
  lemma CancelHandwriteContract(s: Session, k: nat)
    ensures var c := CancelHandwrite(s, k);
            && (k < |s.modals| ==> c.modals == s.modals[..k] + s.modals[k + 1..])
            && (k >= |s.modals| ==> c == s)
            && c.store == s.store && c.overlay == s.overlay && c.storage == s.storage
            && c.events == s.events && c.editor == s.editor
  {
  }

  /**
   * The US Letter example: a position at 34% / 34% of a 612 x 792 pt page
   * is exported at (208.08, 522.72) pt.
   */
  lemma LetterPageExample()
    ensures Export.ToPdfPoint(34.0, 34.0, Export.Viewport(612.0, 792.0)) == Export.PdfPoint(208.08, 522.72)
  {
  }
}
